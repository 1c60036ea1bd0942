/**
 The streaming validator as the program has it: objects whose fields change with every event, each context owning
 the validators that run in parallel for it. Contexts refer to schemas, which refer to each other in any way. Every event
 method refines a step of `GraphValidation`, on events whose validators do not nest without end.
 */
module SchemaValidators {
  import opened Options
  import opened Json
  import opened Document
  import opened SchemaCompile
  import opened Schema
  import opened Validation
  import opened SchemaGraph
  import opened SchemaCycles
  import opened GraphValidation

  // ------------------------------------------------------------ one event in the program's order

  /** A context before its parallel validators receive the event that opened it. */
  function Opened(g: Graph, r: SchemaRef, e: Event): GContext {
    ContextWith(Skeleton(g, r), r, Unused(g, r), e)
  }

  function Unused(g: Graph, r: SchemaRef): (vs: seq<GValidator>)
    ensures |vs| == |SubRefs(g, r)|
  {
    seq(|SubRefs(g, r)|, i requires 0 <= i < |SubRefs(g, r)| => FreshAt(SubRefs(g, r)[i]))
  }

  /** The stack when the parallel validators are about to receive the event; None if the value is refused. */
  function Begun(g: Graph, root: SchemaRef, stack: seq<GContext>, e: Event): Option<seq<GContext>> {
    if BeginsValue(e) then
      if stack == [] then OpenOn(g, [], root, e)
      else
        var below, top := stack[..|stack| - 1], stack[|stack| - 1];
        if PlaceElementAt(g, top).None? || NextRef(g, top).None? then None
        else OpenOn(g, below + [PlaceElementAt(g, top).value], NextRef(g, top).value, e)
    else if stack == [] then None
    else
      var below, top := stack[..|stack| - 1], stack[|stack| - 1];
      match e
      case Key(name) => if SeeKeyAt(g, top, name).None? then None else Some(below + [SeeKeyAt(g, top, name).value])
      case _ => Some(stack)
  }

  function OpenOn(g: Graph, below: seq<GContext>, r: SchemaRef, e: Event): Option<seq<GContext>> {
    if Admits(Skeleton(g, r), e) then Some(below + [Opened(g, r, e)]) else None
  }

  /** How deep the validators of the `i`-th context may begin others: those of a context that is new begin for an event
      that has begun them. */
  function FuelOf(fuel: nat, n: nat, i: nat): nat {
    if i < n || fuel == 0 then fuel else fuel - 1
  }

  /** The validators of the `i`-th context when they have received the event. */
  function TellAt(g: Graph, fuel: nat, n: nat, i: nat, c: GContext, e: Event): (r: Option<seq<GValidator>>)
    ensures r.Some? ==> |r.value| == |c.validators|
  {
    if i >= n && fuel == 0 && c.validators != [] then None else StepAllAt(g, FuelOf(fuel, n, i), c.validators, e)
  }

  /** The contexts when their validators have received the event; the first `n` are not new. */
  function Told(g: Graph, fuel: nat, n: nat, cs: seq<GContext>, e: Event): (r: Option<seq<GContext>>)
    ensures r.Some? ==> |r.value| == |cs|
  {
    if exists i :: 0 <= i < |cs| && TellAt(g, fuel, n, i, cs[i], e).None? then None
    else Some(seq(|cs|, i requires 0 <= i < |cs| => cs[i].(validators := TellAt(g, fuel, n, i, cs[i], e).value)))
  }

  /** What is left then. */
  function Ended(g: Graph, root: SchemaRef, stack: seq<GContext>, e: Event): GValidator
    requires stack != []
  {
    var below, top := stack[..|stack| - 1], stack[|stack| - 1];
    if e.StartObject? || e.StartArray? || e.Key? then GValidator(root, true, stack)
    else if Closes(Plainly(g, top), e) && EndsWellAt(g, top) then GValidator(root, true, below)
    else DeadAt(root)
  }

  lemma {:induction false} FreshBegins(g: Graph, fuel: nat, r: SchemaRef, e: Event)
    requires BeginsValue(e)
    ensures StepAt(g, fuel, FreshAt(r), e) == BeginAt(g, fuel, r, [], r, e)
  {
    hide BeginAt;
    assert DispatchAt(g, fuel, [], e) == Some([]);
  }

  lemma {:induction false} EnteredIsOpened(g: Graph, fuel: nat, r: SchemaRef, e: Event)
    requires BeginsValue(e) && EnteredAt(g, fuel, r, e).Some?
    ensures var told := TellAt(g, fuel, 0, 0, Opened(g, r, e), e);
            told.Some? && EnteredAt(g, fuel, r, e) == Some(Opened(g, r, e).(validators := told.value))
  {
    hide BeginAt, Skeleton, SubRefs, StepAt;
    var subs := SubRefs(g, r);
    forall i | 0 <= i < |subs|
      ensures fuel > 0 && StepAt(g, fuel - 1, Unused(g, r)[i], e) == BeginAt(g, fuel - 1, subs[i], [], subs[i], e)
    {
      FreshBegins(g, fuel - 1, subs[i], e);
    }
    if fuel > 0 {
      assert AllBegin(g, fuel - 1, subs, e)
          == seq(|subs|, i requires 0 <= i < |subs| => StepAt(g, fuel - 1, Unused(g, r)[i], e));
    }
  }

  /** An old context keeps what an event does to it whether its validators come first or last. */
  lemma {:induction false} ToldJoined(g: Graph, fuel: nat, n: nat, below: seq<GContext>, c: GContext, e: Event)
    ensures var vs, told := TellAt(g, fuel, n, |below|, c, e), Told(g, fuel, n, below, e);
            Told(g, fuel, n, below + [c], e)
            == if told.Some? && vs.Some? then Some(told.value + [c.(validators := vs.value)]) else None
  {
    hide TellAt;
    var cs := below + [c];
    assert forall i :: 0 <= i < |below| ==> cs[i] == below[i];
    assert cs[|below|] == c;
    var vs, told := TellAt(g, fuel, n, |below|, c, e), Told(g, fuel, n, below, e);
    if told.None? {
      var i :| 0 <= i < |below| && TellAt(g, fuel, n, i, below[i], e).None?;
      assert TellAt(g, fuel, n, i, cs[i], e).None?;
    } else if vs.None? {
      assert TellAt(g, fuel, n, |below|, cs[|below|], e).None?;
    } else {
      assert Told(g, fuel, n, cs, e).value == told.value + [c.(validators := vs.value)];
    }
  }

  lemma {:induction false} ToldEach(g: Graph, fuel: nat, n: nat, cs: seq<GContext>, e: Event)
    requires Told(g, fuel, n, cs, e).Some?
    ensures forall i :: 0 <= i < |cs| ==>
              && TellAt(g, fuel, n, i, cs[i], e).Some?
              && Told(g, fuel, n, cs, e).value[i] == cs[i].(validators := TellAt(g, fuel, n, i, cs[i], e).value)
  {
    hide TellAt;
  }

  lemma {:induction false} ToldIsDispatched(g: Graph, fuel: nat, n: nat, cs: seq<GContext>, e: Event)
    requires |cs| <= n
    ensures Told(g, fuel, n, cs, e) == DispatchAt(g, fuel, cs, e)
  {
    hide StepAllAt;
    assert forall i :: 0 <= i < |cs| ==> TellAt(g, fuel, n, i, cs[i], e) == StepAllAt(g, fuel, cs[i].validators, e);
    if DispatchAt(g, fuel, cs, e).Some? {
      assert Told(g, fuel, n, cs, e).value == DispatchAt(g, fuel, cs, e).value;
    }
  }

  /** A value begins on a stack whose old contexts have received the event already. */
  lemma {:induction false} BeginInOrder(g: Graph, fuel: nat, root: SchemaRef, below: seq<GContext>, r: SchemaRef, e: Event)
    requires BeginsValue(e) && DispatchAt(g, fuel, below, e).Some?
    requires BeginAt(g, fuel, root, DispatchAt(g, fuel, below, e).value, r, e).Some?
    ensures var next := BeginAt(g, fuel, root, DispatchAt(g, fuel, below, e).value, r, e).value;
            match OpenOn(g, below, r, e)
            case None => next == DeadAt(root)
            case Some(s) => Told(g, fuel, |below|, s, e).Some? && next == Ended(g, root, Told(g, fuel, |below|, s, e).value, e)
  {
    hide EnteredAt, Opened, StepAllAt, DispatchAt, EndsWellAt, Admits, Skeleton, Told;
    if Admits(Skeleton(g, r), e) {
      EnteredIsOpened(g, fuel, r, e);
      ToldJoined(g, fuel, |below|, below, Opened(g, r, e), e);
      ToldIsDispatched(g, fuel, |below|, below, e);
      assert TellAt(g, fuel, |below|, |below|, Opened(g, r, e), e) == TellAt(g, fuel, 0, 0, Opened(g, r, e), e);
      var told := DispatchAt(g, fuel, below, e).value + [EnteredAt(g, fuel, r, e).value];
      assert Told(g, fuel, |below|, below + [Opened(g, r, e)], e) == Some(told);
      assert told[..|told| - 1] == DispatchAt(g, fuel, below, e).value;
    }
  }

  /** The step of the specification, taken in the program's order. */
  lemma {:induction false} StepInOrder(g: Graph, fuel: nat, root: SchemaRef, stack: seq<GContext>, e: Event)
    requires StepAt(g, fuel, GValidator(root, true, stack), e).Some?
    ensures var next := StepAt(g, fuel, GValidator(root, true, stack), e).value;
            match Begun(g, root, stack, e)
            case None => next == DeadAt(root)
            case Some(s) => Told(g, fuel, |stack|, s, e).Some? && next == Ended(g, root, Told(g, fuel, |stack|, s, e).value, e)
  {
    hide BeginAt, Ended, OpenOn, Told, DispatchAt;
    if stack == [] {
      assert DispatchAt(g, fuel, [], e) == Some([]) by { NothingDispatched(g, fuel, e); }
      if BeginsValue(e) {
        BeginInOrder(g, fuel, root, [], root, e);
      }
    } else if BeginsValue(e) {
      StepOnValue(g, fuel, root, stack, e);
    } else {
      StepOnOther(g, fuel, root, stack, e);
    }
  }

  lemma {:induction false} NothingDispatched(g: Graph, fuel: nat, e: Event)
    ensures DispatchAt(g, fuel, [], e) == Some([])
  {
  }

  /** All but the last context. */
  lemma {:induction false} DispatchedLast(g: Graph, fuel: nat, stack: seq<GContext>, e: Event)
    requires stack != [] && DispatchAt(g, fuel, stack, e).Some?
    ensures var last, ds := |stack| - 1, DispatchAt(g, fuel, stack, e).value;
            && DispatchAt(g, fuel, stack[..last], e) == Some(ds[..last])
            && StepAllAt(g, fuel, stack[last].validators, e).Some?
            && ds[last] == stack[last].(validators := StepAllAt(g, fuel, stack[last].validators, e).value)
  {
    hide StepAllAt, Told, DispatchAt;
    var last := |stack| - 1;
    assert stack == stack[..last] + [stack[last]];
    ToldIsDispatched(g, fuel, |stack|, stack, e);
    ToldIsDispatched(g, fuel, |stack|, stack[..last], e);
    ToldJoined(g, fuel, |stack|, stack[..last], stack[last], e);
  }

  lemma {:induction false} DispatchedJoined(g: Graph, fuel: nat, below: seq<GContext>, c: GContext, e: Event)
    requires DispatchAt(g, fuel, below, e).Some? && StepAllAt(g, fuel, c.validators, e).Some?
    ensures DispatchAt(g, fuel, below + [c], e)
            == Some(DispatchAt(g, fuel, below, e).value + [c.(validators := StepAllAt(g, fuel, c.validators, e).value)])
  {
    hide StepAllAt, Told, DispatchAt;
    ToldIsDispatched(g, fuel, |below| + 1, below + [c], e);
    ToldIsDispatched(g, fuel, |below| + 1, below, e);
    ToldJoined(g, fuel, |below| + 1, below, c, e);
  }

  /** Contexts that are not new have the validators that they had. */
  lemma {:induction false} BegunIsOld(g: Graph, root: SchemaRef, stack: seq<GContext>, e: Event)
    requires Begun(g, root, stack, e).Some?
    ensures var s := Begun(g, root, stack, e).value;
            |stack| <= |s| && forall i :: 0 <= i < |stack| ==> s[i].validators == stack[i].validators
  {
    hide Opened, Skeleton, Admits, ItemAt, MemberAt;
  }

  lemma {:induction false} OldIsBefore(v: GValidator, i: nat, k: nat)
    requires i < |v.stack| && k < |v.stack[i].validators|
    ensures v.stack[i].validators[k] < v
  {
    assert v.stack[i] < v;
  }

  lemma {:induction false} StepOnValue(g: Graph, fuel: nat, root: SchemaRef, stack: seq<GContext>, e: Event)
    requires stack != [] && BeginsValue(e) && StepAt(g, fuel, GValidator(root, true, stack), e).Some?
    ensures var next := StepAt(g, fuel, GValidator(root, true, stack), e).value;
            match Begun(g, root, stack, e)
            case None => next == DeadAt(root)
            case Some(s) => Told(g, fuel, |stack|, s, e).Some? && next == Ended(g, root, Told(g, fuel, |stack|, s, e).value, e)
  {
    hide BeginAt, Ended, OpenOn, Told, DispatchAt, StepAllAt, ItemAt;
    var below, top := stack[..|stack| - 1], stack[|stack| - 1];
    DispatchedLast(g, fuel, stack, e);
    var told := DispatchAt(g, fuel, stack, e).value[|stack| - 1];
    if PlaceElementAt(g, top).Some? && NextRef(g, top).Some? {
      var next := below + [PlaceElementAt(g, top).value];
      DispatchedJoined(g, fuel, below, PlaceElementAt(g, top).value, e);
      assert DispatchAt(g, fuel, next, e) == Some(DispatchAt(g, fuel, below, e).value + [PlaceElementAt(g, told).value]);
      BeginInOrder(g, fuel, root, next, NextRef(g, top).value, e);
    }
  }

  lemma {:induction false} StepOnOther(g: Graph, fuel: nat, root: SchemaRef, stack: seq<GContext>, e: Event)
    requires stack != [] && !BeginsValue(e) && StepAt(g, fuel, GValidator(root, true, stack), e).Some?
    ensures var next := StepAt(g, fuel, GValidator(root, true, stack), e).value;
            match Begun(g, root, stack, e)
            case None => next == DeadAt(root)
            case Some(s) => Told(g, fuel, |stack|, s, e).Some? && next == Ended(g, root, Told(g, fuel, |stack|, s, e).value, e)
  {
    hide Told, DispatchAt, StepAllAt, MemberAt, PropertyIndex, EndsWellAt, Closes, Plainly;
    var below, top := stack[..|stack| - 1], stack[|stack| - 1];
    DispatchedLast(g, fuel, stack, e);
    ToldIsDispatched(g, fuel, |stack|, stack, e);
    if e.Key? && SeeKeyAt(g, top, e.s).Some? {
      var seen := SeeKeyAt(g, top, e.s).value;
      DispatchedJoined(g, fuel, below, seen, e);
      ToldIsDispatched(g, fuel, |stack|, below + [seen], e);
    }
  }

  /** A name chooses by its place in the property table. */
  lemma {:induction false} SeeKeyByIndex(g: Graph, c: GContext, name: Bytes)
    ensures var shape, i := ShapeAt(g, c.ref), PropertyIndex(g, c.ref, name);
            var ref := if i < |shape.properties| then Some(shape.properties[i].ref) else AdditionalRef(shape.additionalProperties);
            SeeKeyAt(g, c, name)
            == if ref.None? then None
               else Some(c.(valueRef := if c.inArray then None else ref,
                            exist := if i < |c.exist| then c.exist[i := true] else c.exist))
  {
    hide FindGraphProperty;
  }

  // ------------------------------------------------------------ one open value

  class SchemaContext {
    const graph: Graph
    const schema: SchemaRef
    var inArray: bool
    var arrayElementIndex: nat
    var valueSchema: Option<SchemaRef>
    var exist: seq<bool>
    var validators: seq<SchemaValidator>
    ghost var model: GContext
    ghost var repr: set<object>

    /** The objects are this context's own, and `model` is what the fields say. In an array the schema of the last
        element is of no account. */
    ghost predicate Valid()
      reads this, repr
      decreases repr, 1
    {
      && this in repr && |model.validators| == |validators| <= |SubRefs(graph, schema)| && Parts(model.validators)
      && |exist| <= |ShapeAt(graph, schema).properties|
      && model == GContext(schema, model.validators, inArray, arrayElementIndex, if inArray then None else valueSchema, exist)
    }

    /** The validators that run in parallel, each apart from the others and from this context. */
    ghost predicate Parts(vs: seq<GValidator>)
      reads this`validators, this`repr, repr - {this}
      decreases repr, 0
    {
      && |vs| == |validators| <= |SubRefs(graph, schema)|
      && (forall k :: 0 <= k < |validators| ==>
            && validators[k] in repr && validators[k].repr <= repr && this !in validators[k].repr && this in repr
            && validators[k].graph == graph && validators[k].root == SubRefs(graph, schema)[k]
            && validators[k].Valid() && vs[k] == validators[k].model)
      && (forall j, k :: 0 <= j < k < |validators| ==> validators[j].repr !! validators[k].repr)
    }

    constructor (graph: Graph, schema: SchemaRef)
      ensures Valid() && fresh(repr) && this.graph == graph && this.schema == schema && validators == []
      ensures model == GContext(schema, [], false, 0, None, [])
    {
      this.graph, this.schema := graph, schema;
      inArray, arrayElementIndex, valueSchema, exist, validators := false, 0, None, [], [];
      model, repr := GContext(schema, [], false, 0, None, []), {this};
    }

    /** The first event of the value. */
    method Start(e: Event) returns (ok: bool)
      requires Valid() && BeginsValue(e) && validators == [] && model == GContext(schema, [], false, 0, None, [])
      modifies this
      ensures Valid() && fresh(repr - old(repr)) && ok == Admits(Skeleton(graph, schema), e)
      ensures ok ==> model == Opened(graph, schema, e) && |validators| == |SubRefs(graph, schema)|
    {
      hide Admits;
      if !Admits(Skeleton(graph, schema), e) {
        return false;
      }
      if e.StartObject? && HasRequired(Skeleton(graph, schema)) {
        exist := seq(|ShapeAt(graph, schema).properties|, i => false);
      }
      if e.StartArray? {
        arrayElementIndex, inArray := 0, true;
      }
      model := model.(inArray := inArray, exist := exist);
      CreateParallelValidator();
      return true;
    }

    method CreateParallelValidator()
      requires Valid() && validators == []
      modifies this
      ensures Valid() && fresh(repr - old(repr)) && |validators| == |SubRefs(graph, schema)|
      ensures model == old(model).(validators := Unused(graph, schema))
    {
      hide SubRefs;
      for k := 0 to |SubRefs(graph, schema)|
        invariant Valid() && fresh(repr - old(repr)) && |validators| == k
        invariant model == old(model).(validators := Unused(graph, schema)[..k])
      {
        CreateSchemaValidator(k);
        assert model.validators == Unused(graph, schema)[..k + 1];
      }
    }

    method CreateSchemaValidator(k: nat)
      requires Valid() && k == |validators| < |SubRefs(graph, schema)|
      modifies this`validators, this`model, this`repr
      ensures Valid() && fresh(repr - old(repr)) && |validators| == k + 1
      ensures model == old(model).(validators := old(model).validators + [FreshAt(SubRefs(graph, schema)[k])])
    {
      hide SubRefs;
      var v := new SchemaValidator(graph, SubRefs(graph, schema)[k]);
      validators := validators + [v];
      model := model.(validators := model.validators + [v.model]);
      repr := repr + v.repr;
    }

    /** Chooses the schema of the value that begins in this array; nothing to do in an object. */
    method BeginValue() returns (ok: bool)
      requires Valid()
      modifies this`valueSchema, this`arrayElementIndex, this`model
      ensures Valid() && ok == PlaceElementAt(graph, old(model)).Some?
      ensures ok ==> PlaceElementAt(graph, old(model)) == Some(model) && valueSchema == NextRef(graph, old(model))
    {
      hide SubRefs, Parts;
      if !inArray {
        return true;
      }
      var shape := ShapeAt(graph, schema);
      match shape.items {
        case ListOf(list) =>
          valueSchema := Some(list);
        case TupleOf(tuple) =>
          if tuple == [] {
            valueSchema := Some(Typeless);
          } else if arrayElementIndex < |tuple| {
            valueSchema := Some(tuple[arrayElementIndex]);
          } else {
            match shape.additionalItems
            case MustMatch(additional) => valueSchema := Some(additional);
            case MayFollow => valueSchema := Some(Typeless);
            case MayNotFollow => return false;
          }
        case NoItems =>
          valueSchema := Some(Typeless);
      }
      arrayElementIndex := arrayElementIndex + 1;
      model := model.(arrayElementIndex := arrayElementIndex);
      return true;
    }

    /** Where a name is in the property table. */
    method FindPropertyIndex(name: Bytes) returns (index: nat)
      ensures index == PropertyIndex(graph, schema, name)
    {
      var ps := ShapeAt(graph, schema).properties;
      index := 0;
      assert ps[index..] == ps;
      while index < |ps|
        invariant index <= |ps| && FindGraphProperty(ps, name) == index + FindGraphProperty(ps[index..], name)
      {
        if ps[index].name == name {
          return;
        }
        assert ps[index..][1..] == ps[index + 1..];
        index := index + 1;
      }
    }

    /** Chooses the schema of the member's value and notes that the name was seen. */
    method Key(name: Bytes) returns (ok: bool)
      requires Valid()
      modifies this`valueSchema, this`exist, this`model
      ensures Valid() && ok == SeeKeyAt(graph, old(model), name).Some?
      ensures ok ==> SeeKeyAt(graph, old(model), name) == Some(model)
    {
      hide FindGraphProperty, SubRefs, SeeKeyAt, Parts;
      var shape := ShapeAt(graph, schema);
      var index := FindPropertyIndex(name);
      SeeKeyByIndex(graph, model, name);
      if index < |shape.properties| {
        valueSchema := Some(shape.properties[index].ref);
        if index < |exist| {
          exist := exist[index := true];
        }
        model := model.(valueRef := if inArray then None else valueSchema, exist := exist);
        return true;
      }
      match shape.additionalProperties {
        case MustMatch(additional) => valueSchema := Some(additional);
        case MayFollow => valueSchema := Some(Typeless);
        case MayNotFollow => return false;
      }
      model := model.(valueRef := if inArray then None else valueSchema);
      return true;
    }

    method EndObject(memberCount: nat) returns (ok: bool)
      requires Valid()
      ensures ok == Closes(Plainly(graph, model), Event.EndObject(memberCount))
    {
      hide SubRefs;
      ok := true;
      var shape := ShapeAt(graph, schema);
      ghost var s := Skeleton(graph, schema);
      for index := 0 to |shape.properties|
        invariant ok <==> forall k :: 0 <= k < index && k < |exist| ==>
                            s.properties[k].required ==> exist[k] || s.properties[k].schema.defaultValueLength > 0
      {
        if index < |exist| && shape.properties[index].required && !exist[index] {
          if DefaultLength(graph, shape.properties[index].ref) == 0 {
            ok := false;
          }
        }
      }
      if memberCount < shape.scalar.minProperties || !AtMost(memberCount, shape.scalar.maxProperties) {
        ok := false;
      }
    }

    method EndArray(elementCount: nat) returns (ok: bool)
      requires Valid()
      modifies this`inArray, this`model
      ensures Valid() && ok == Closes(Plainly(graph, old(model)), Event.EndArray(elementCount))
      ensures model.validators == old(model.validators) && model.ref == old(model).ref
    {
      hide Parts;
      inArray := false;
      model := model.(inArray := false, valueRef := valueSchema);
      var shape := ShapeAt(graph, schema);
      return shape.scalar.minItems <= elementCount && AtMost(elementCount, shape.scalar.maxItems);
    }

    // The verdicts of validators `a` to `b`.

    method AllOf(a: nat, b: nat) returns (ok: bool)
      requires Valid() && a <= b <= |validators|
      ensures ok == AllValid(VerdictsAt(model)[a..b])
    {
      assert Parts(model.validators);
      for i := a to b
        invariant forall k :: a <= k < i ==> validators[k].valid
      {
        if !validators[i].valid {
          assert !VerdictsAt(model)[a..b][i - a];
          return false;
        }
      }
      return true;
    }

    method AnyOf(a: nat, b: nat) returns (ok: bool)
      requires Valid() && a <= b <= |validators|
      ensures ok == AnyValid(VerdictsAt(model)[a..b])
    {
      assert Parts(model.validators);
      for i := a to b
        invariant forall k :: a <= k < i ==> !validators[k].valid
      {
        if validators[i].valid {
          assert VerdictsAt(model)[a..b][i - a];
          return true;
        }
      }
      return false;
    }

    method OneOf(a: nat, b: nat) returns (ok: bool)
      requires Valid() && a <= b <= |validators|
      ensures ok == OneValid(VerdictsAt(model)[a..b])
    {
      assert Parts(model.validators);
      ghost var v := VerdictsAt(model)[a..b];
      var oneValid := false;
      ghost var match_: nat := 0;
      for i := a to b
        invariant oneValid ==> match_ < i - a && v[match_]
        invariant forall k :: 0 <= k < i - a && v[k] ==> oneValid && k == match_
      {
        assert v[i - a] == validators[i].valid;
        if validators[i].valid {
          if oneValid {
            assert v[match_] && v[i - a];
            return false;
          }
          oneValid, match_ := true, i - a;
        }
      }
      return oneValid;
    }

    method EndValue() returns (ok: bool)
      requires Valid() && |validators| == |SubRefs(graph, schema)|
      ensures ok == EndsWellAt(graph, model)
    {
      hide AllValid, AnyValid, OneValid, Valid;
      var shape := ShapeAt(graph, schema);
      var a, b, c := |shape.allOf|, |shape.allOf| + |shape.anyOf|, |shape.allOf| + |shape.anyOf| + |shape.oneOf|;
      ModelIsOk();
      ok := AllOf(0, a);
      assert VerdictsAt(model)[0..a] == VerdictsAt(model)[..a];
      if ok && shape.anyOf != [] {
        ok := AnyOf(a, b);
      }
      if ok && shape.oneOf != [] {
        ok := OneOf(b, c);
      }
      if ok && shape.negated.Some? && validators[c].valid {
        ok := false;
      }
    }

    lemma {:induction false} IsItsOwn()
      requires Valid()
      ensures this in repr && model.ref == schema
    {
    }

    lemma {:induction false} ModelIsOk()
      requires Valid()
      ensures |model.validators| == |validators| && model.ref == schema
      ensures forall k :: 0 <= k < |validators| ==> VerdictsAt(model)[k] == validators[k].valid
    {
      assert Parts(model.validators);
    }

    /** The last event of the value. */
    method End(e: Event) returns (ok: bool)
      requires Valid() && |validators| == |SubRefs(graph, schema)| && (IsScalar(e) || e.EndObject? || e.EndArray?)
      modifies this`inArray, this`model
      ensures ok == (Closes(Plainly(graph, old(model)), e) && EndsWellAt(graph, old(model)))
    {
      hide Combine, Valid, Skeleton, Subs;
      ok := true;
      if e.EndObject? {
        ok := EndObject(e.count);
      } else if e.EndArray? {
        ok := EndArray(e.count);
      }
      assert VerdictsAt(model) == VerdictsAt(old(model));
      if ok {
        ok := EndValue();
      }
    }

    /** Sends an event to the parallel validators, each of which has begun before `roof`. */
    method Tell(e: Event, ghost fuel: nat, ghost roof: GValidator)
      requires Valid() && StepAllAt(graph, fuel, model.validators, e).Some?
      requires forall k :: 0 <= k < |validators| ==> model.validators[k] < roof
      modifies repr
      ensures Valid() && fresh(repr - old(repr)) && |validators| == |old(validators)|
      ensures model == old(model).(validators := StepAllAt(graph, fuel, old(model).validators, e).value)
      decreases fuel, roof, 2
    {
      hide StepAt, SubRefs;
      ghost var vs := model.validators;
      ghost var told := StepAllAt(graph, fuel, vs, e).value;
      for k := 0 to |validators|
        invariant Valid() && fresh(repr - old(repr)) && |validators| == |old(validators)|
        invariant model == old(model).(validators := model.validators)
        invariant forall j :: 0 <= j < k ==> model.validators[j] == told[j]
        invariant forall j :: k <= j < |vs| ==> model.validators[j] == vs[j]
      {
        assert StepAt(graph, fuel, vs[k], e) == Some(told[k]);
        TellOne(k, e, fuel, roof);
      }
      assert model.validators == told;
    }

    method TellOne(k: nat, e: Event, ghost fuel: nat, ghost roof: GValidator)
      requires Valid() && k < |validators| && model.validators[k] < roof && StepAt(graph, fuel, model.validators[k], e).Some?
      modifies repr
      ensures Valid() && fresh(repr - old(repr)) && validators == old(validators)
      ensures model == old(model).(validators := old(model).validators[k := StepAt(graph, fuel, old(model).validators[k], e).value])
      decreases fuel, roof, 1
    {
      hide StepAt, SubRefs;
      var v := validators[k];
      assert Parts(model.validators);
      v.Handle(e, fuel);
      model := model.(validators := model.validators[k := v.model]);
      repr := repr + v.repr;
      assert Parts(model.validators);
    }
  }

  // ------------------------------------------------------------ the validator

  class SchemaValidator {
    const graph: Graph
    const root: SchemaRef
    var valid: bool
    var schemaStack: seq<SchemaContext>
    ghost var model: GValidator
    ghost var repr: set<object>

    /** Once invalid, the stack is of no account. */
    ghost predicate Valid()
      reads this, repr
      decreases repr
    {
      && this in repr && model.root == root && model.valid == valid
      && (!valid ==> model == DeadAt(root))
      && (valid ==> |model.stack| == |schemaStack|)
      && (valid ==> forall i :: 0 <= i < |schemaStack| ==>
            && schemaStack[i] in repr && schemaStack[i].repr <= repr && this !in schemaStack[i].repr
            && schemaStack[i].Valid() && model.stack[i] == schemaStack[i].model && ContextOk(schemaStack[i]))
      && (valid ==> forall i, j :: 0 <= i < j < |schemaStack| ==> schemaStack[i].repr !! schemaStack[j].repr)
    }

    ghost predicate ContextOk(c: SchemaContext)
      reads c
    {
      c.graph == graph && |c.validators| == |SubRefs(graph, c.schema)|
    }

    lemma {:induction false} ContextIsOk(c: SchemaContext)
      requires ContextOk(c)
      ensures c.graph == graph && |c.validators| == |SubRefs(graph, c.schema)|
    {
    }

    constructor (graph: Graph, root: SchemaRef)
      ensures Valid() && fresh(repr) && this.graph == graph && this.root == root && model == FreshAt(root)
    {
      this.graph, this.root := graph, root;
      valid, schemaStack := true, [];
      model, repr := FreshAt(root), {this};
    }

    /** Ready for another document. */
    method Reset()
      requires Valid()
      modifies this
      ensures Valid() && model == FreshAt(root) && repr == {this}
    {
      valid, schemaStack := true, [];
      model, repr := FreshAt(root), {this};
    }

    /** Given the events of a whole value, the validator says whether it is what the schema means, where no validators that
        can be reached nest without end. A value that is leaves it ready for the next. */
    method Validate(es: seq<Event>, ghost t: Tree, ghost fuel: nat) returns (ok: bool)
      requires Valid() && model == FreshAt(root) && GraphOk(graph) && TreeOk(t) && es == TreeEvents(t)
      requires forall loc :: loc in Reached(graph, root) ==> !Nests(graph, At(loc), fuel + 1)
      modifies repr
      ensures Valid() && fresh(repr - old(repr)) && AllEnd(graph, root) && ok == valid == MeansFrom(graph, root, t)
      ensures ok ==> model == FreshAt(root)
    {
      hide MeansFrom, GraphOk, TreeOk, TreeEvents, StepAt, Reached, Nests, AllEnd;
      ValidatesAlongReferences(graph, fuel, root, t);
      ghost var last := RunAt(graph, fuel, FreshAt(root), es);
      assert es[0..] == es;
      for i := 0 to |es|
        invariant Valid() && fresh(repr - old(repr)) && RunAt(graph, fuel, model, es[i..]) == last
      {
        assert es[i..][1..] == es[i + 1..];
        Handle(es[i], fuel);
      }
      ok := valid;
    }

    /** Every event: the context and schema on top first, then the parallel validators of all contexts, then the end
        of the value. An invalid validator ignores it. */
    method Handle(e: Event, ghost fuel: nat)
      requires Valid() && StepAt(graph, fuel, model, e).Some?
      modifies repr
      ensures Valid() && fresh(repr - old(repr)) && Some(model) == StepAt(graph, fuel, old(model), e)
      decreases fuel, model, 6
    {
      hide DispatchAt, Begun, ActAt, Told, Ended;
      if !valid {
        return;
      }
      ghost var was := model;
      StepInOrder(graph, fuel, root, model.stack, e);
      HandleBegin(e);
      if !valid {
        return;
      }
      BegunIsOld(graph, root, was.stack, e);
      HandleParallel(e, fuel, was);
      if !(e.StartObject? || e.StartArray? || e.Key?) {
        HandleEnd(e);
      } else {
        EndedLater(graph, root, model.stack, e);
      }
    }

    method HandleBegin(e: Event)
      requires Valid() && valid
      modifies repr
      ensures Valid() && fresh(repr - old(repr))
      ensures valid == Begun(graph, root, old(model).stack, e).Some?
      ensures valid ==> model.stack == Begun(graph, root, old(model).stack, e).value && model.stack != []
    {
      if BeginsValue(e) {
        BeginValue(e);
      } else if |schemaStack| == 0 {
        Fail();
      } else if e.Key? {
        Key(e.s);
      }
    }

    method HandleEnd(e: Event)
      requires Valid() && valid && schemaStack != [] && model.stack != [] && (IsScalar(e) || e.EndObject? || e.EndArray?)
      modifies repr
      ensures Valid() && fresh(repr - old(repr)) && model == Ended(graph, root, old(model).stack, e)
    {
      hide Closes, EndsWellAt, SubRefs, Plainly, ShapeAt, SchemaContext.Valid, ContextOk;
      var last := |schemaStack| - 1;
      var c := schemaStack[last];
      c.IsItsOwn();
      ContextIsOk(c);
      var ok := c.End(e);
      if ok {
        schemaStack := schemaStack[..last];
        model := model.(stack := model.stack[..last]);
      } else {
        Fail();
      }
    }

    method Fail()
      requires this in repr && model.root == root
      modifies this`valid, this`model
      ensures Valid() && !valid
    {
      valid, model := false, DeadAt(root);
    }

    /** A value begins: in the document itself, in an array or as the value of a member. */
    method BeginValue(e: Event)
      requires Valid() && valid && BeginsValue(e)
      modifies repr
      ensures Valid() && fresh(repr - old(repr))
      ensures valid == Begun(graph, root, old(model).stack, e).Some?
      ensures valid ==> model.stack == Begun(graph, root, old(model).stack, e).value && model.stack != []
    {
      hide SchemaContext.Valid, ContextOk, NextRef, PlaceElementAt, SubRefs, OpenOn;
      if |schemaStack| == 0 {
        PushSchema(root, e);
        return;
      }
      var s := ChooseSchema();
      if s.Some? {
        PushSchema(s.value, e);
      }
    }

    /** The context on top chooses the schema of the value that begins in it. */
    method ChooseSchema() returns (s: Option<SchemaRef>)
      requires Valid() && valid && model.stack != []
      modifies repr
      ensures Valid() && fresh(repr - old(repr)) && valid == s.Some?
      ensures var top := old(model).stack[|old(model).stack| - 1];
              && s.Some? == (PlaceElementAt(graph, top).Some? && NextRef(graph, top).Some?)
              && (s.Some? ==> s == NextRef(graph, top)
                              && model.stack == old(model).stack[..|old(model).stack| - 1] + [PlaceElementAt(graph, top).value])
    {
      hide ItemAt, SubRefs;
      var last := |schemaStack| - 1;
      var c := schemaStack[last];
      var ok := c.BeginValue();
      if !ok || c.valueSchema.None? {
        Fail();
        return None;
      }
      model := model.(stack := model.stack[..last] + [c.model]);
      return c.valueSchema;
    }

    /** A new context for a value of schema `s`, unless the schema refuses its first event. */
    method PushSchema(s: SchemaRef, e: Event)
      requires Valid() && valid && BeginsValue(e)
      modifies this
      ensures Valid() && fresh(repr - old(repr))
      ensures valid == OpenOn(graph, old(model).stack, s, e).Some?
      ensures valid ==> model.stack == OpenOn(graph, old(model).stack, s, e).value && model.stack != []
    {
      hide Admits, Skeleton;
      var c := new SchemaContext(graph, s);
      var ok := c.Start(e);
      if ok {
        Push(c);
      } else {
        Fail();
      }
    }

    method Push(c: SchemaContext)
      requires Valid() && valid && c.Valid() && c.repr !! repr && this !in c.repr && ContextOk(c)
      modifies this`schemaStack, this`model, this`repr
      ensures Valid() && valid && repr == old(repr) + c.repr && model.stack == old(model).stack + [c.model]
    {
      schemaStack := schemaStack + [c];
      model := model.(stack := model.stack + [c.model]);
      repr := repr + c.repr;
    }

    method Key(name: Bytes)
      requires Valid() && valid && schemaStack != []
      modifies repr
      ensures Valid() && fresh(repr - old(repr))
      ensures valid == Begun(graph, root, old(model).stack, Event.Key(name)).Some?
      ensures valid ==> model.stack == Begun(graph, root, old(model).stack, Event.Key(name)).value && model.stack != []
    {
      hide SchemaContext.Valid, ContextOk, SeeKeyAt;
      ChooseMember(name);
    }

    /** The context on top chooses the schema of the member's value. */
    method ChooseMember(name: Bytes)
      requires Valid() && valid && model.stack != []
      modifies repr
      ensures Valid() && fresh(repr - old(repr))
      ensures var top := old(model).stack[|old(model).stack| - 1];
              && valid == SeeKeyAt(graph, top, name).Some?
              && (valid ==> model.stack == old(model).stack[..|old(model).stack| - 1] + [SeeKeyAt(graph, top, name).value])
    {
      hide MemberAt, PropertyIndex, SubRefs;
      var last := |schemaStack| - 1;
      var c := schemaStack[last];
      var ok := c.Key(name);
      if ok {
        model := model.(stack := model.stack[..last] + [c.model]);
      } else {
        Fail();
      }
    }

    /** Sends an event to the parallel validators of every context; `was` is what the validator was before the event. */
    method HandleParallel(e: Event, ghost fuel: nat, ghost was: GValidator)
      requires Valid() && valid && Told(graph, fuel, |was.stack|, model.stack, e).Some?
      requires |was.stack| <= |model.stack| && forall i :: 0 <= i < |was.stack| ==> model.stack[i].validators == was.stack[i].validators
      modifies repr
      ensures Valid() && fresh(repr - old(repr)) && valid && |schemaStack| == |old(schemaStack)|
      ensures Some(model.stack) == Told(graph, fuel, |was.stack|, old(model).stack, e)
      decreases fuel, was, 5
    {
      hide TellAt, Told, SchemaContext.Valid, ContextOk;
      ghost var cs, n := model.stack, |was.stack|;
      ghost var told := Told(graph, fuel, n, cs, e).value;
      ToldEach(graph, fuel, n, cs, e);
      for i := 0 to |schemaStack|
        invariant Valid() && valid && fresh(repr - old(repr)) && |schemaStack| == |cs|
        invariant forall j :: 0 <= j < i ==> model.stack[j] == told[j]
        invariant forall j :: i <= j < |cs| ==> model.stack[j] == cs[j]
      {
        TellNext(i, e, fuel, was);
      }
      assert model.stack == told;
    }

    /** The validators of the `i`-th context. */
    method TellNext(i: nat, e: Event, ghost fuel: nat, ghost was: GValidator)
      requires Valid() && valid && i < |schemaStack| && TellAt(graph, fuel, |was.stack|, i, model.stack[i], e).Some?
      requires i < |was.stack| ==> model.stack[i].validators == was.stack[i].validators
      modifies repr
      ensures Valid() && fresh(repr - old(repr)) && valid && schemaStack == old(schemaStack)
      ensures var c := old(model).stack[i];
              model == old(model).(stack := old(model).stack[i := c.(validators := TellAt(graph, fuel, |was.stack|, i, c, e).value)])
      decreases fuel, was, 4
    {
      hide StepAllAt, TellAt, FuelOf, Valid;
      ModelIsThere();
      ghost var c, n := model.stack[i], |was.stack|;
      ghost var roof := if i < n || fuel == 0 then was else GValidator(root, true, [c]);
      RoofIsAbove(graph, fuel, was, roof, i, c, e);
      TellOne(i, e, FuelOf(fuel, n, i), roof);
    }

    lemma {:induction false} ModelIsThere()
      requires Valid() && valid
      ensures |model.stack| == |schemaStack|
    {
    }

    method TellOne(i: nat, e: Event, ghost fuel: nat, ghost roof: GValidator)
      requires Valid() && valid && i < |schemaStack| && StepAllAt(graph, fuel, model.stack[i].validators, e).Some?
      requires forall k :: 0 <= k < |model.stack[i].validators| ==> model.stack[i].validators[k] < roof
      modifies repr
      ensures Valid() && fresh(repr - old(repr)) && valid && schemaStack == old(schemaStack)
      ensures var c := old(model).stack[i];
              model == old(model).(stack := old(model).stack[i := c.(validators := StepAllAt(graph, fuel, c.validators, e).value)])
      decreases fuel, roof, 3
    {
      hide StepAllAt, SubRefs;
      var c := schemaStack[i];
      c.Tell(e, fuel, roof);
      model := model.(stack := model.stack[i := c.model]);
      repr := repr + c.repr;
    }
  }

  /** Validators that were there are parts of what was; those of a new context are parts of one that has it. */
  lemma {:induction false} RoofIsAbove(g: Graph, fuel: nat, was: GValidator, roof: GValidator, i: nat, c: GContext, e: Event)
    requires TellAt(g, fuel, |was.stack|, i, c, e).Some?
    requires i < |was.stack| ==> c.validators == was.stack[i].validators
    requires if i < |was.stack| || fuel == 0 then roof == was else roof.stack == [c]
    ensures forall k :: 0 <= k < |c.validators| ==> c.validators[k] < roof
    ensures TellAt(g, fuel, |was.stack|, i, c, e) == StepAllAt(g, FuelOf(fuel, |was.stack|, i), c.validators, e)
    ensures i < |was.stack| || fuel == 0 ==> FuelOf(fuel, |was.stack|, i) == fuel
    ensures i >= |was.stack| && fuel > 0 ==> FuelOf(fuel, |was.stack|, i) < fuel
  {
    forall k | 0 <= k < |c.validators| ensures c.validators[k] < roof {
      OldIsBefore(roof, if i < |was.stack| then i else 0, k);
    }
  }

  lemma {:induction false} EndedLater(g: Graph, root: SchemaRef, stack: seq<GContext>, e: Event)
    requires stack != [] && (e.StartObject? || e.StartArray? || e.Key?)
    ensures Ended(g, root, stack, e) == GValidator(root, true, stack)
  {
  }
}
