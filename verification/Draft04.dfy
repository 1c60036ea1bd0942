/**
 What the keywords mean by the JSON Schema draft-04 validation specification, where the validator departs from it,
 and exactly when it does not.
 */
module Draft04 {
  import opened Options
  import opened Json
  import opened Encodings
  import opened Schema
  import opened Validation
  import opened Validity

  /** Sections 5.2.1 and 5.2.2: the length of a string is the number of its characters as RFC 4627 defines them, here the
      scalar values that it encodes. */
  ghost predicate LengthByStandard(s: Schema, text: Bytes) {
    forall cs | AllScalar(cs) && Utf8Text(cs) == text ::
      && |cs| >= s.minLength
      && (s.maxLength.Some? ==> |cs| <= s.maxLength.value)
  }

  /** Sections 5.1.2 and 5.1.3: an exclusive bound is one that the number may not equal. */
  predicate WithinByStandard(s: Schema, n: int) {
    && (s.minimum.Some? ==> n >= s.minimum.value && (s.exclusiveMinimum ==> n != s.minimum.value))
    && (s.maximum.Some? ==> n <= s.maximum.value && (s.exclusiveMaximum ==> n != s.maximum.value))
    && s.floating.integers(n)
  }

  /** Section 5.5.2: the primitive types of a value; an integer is a number too. */
  function TypesByStandard(t: Tree): set<SimpleType> {
    match t
    case Arr(_) => {ArrayType}
    case Obj(_) => {ObjectType}
    case Leaf(e) =>
      if e.Null? then {NullType}
      else if e.Bool? then {BooleanType}
      else if e.String? then {StringType}
      else if e.Double? then {NumberType}
      else if e.Int? || e.Uint? || e.Int64? || e.Uint64? then {IntegerType, NumberType}
      else {}
  }

  /** Sections 5.3.2, 5.3.3, 5.4.1 and 5.4.2: limits on how many there are, themselves included. */
  predicate CountByStandard(n: nat, least: nat, most: Option<nat>) {
    least <= n && (most == None || n <= most.value)
  }

  function AdditionalByStandard(a: Additional): Option<Schema> {
    if a.Must? then Some(a.schema) else if a.Allowed? then Some(TYPELESS) else None
  }

  /** Section 5.3.1: elements behind the tuple fall under `additionalItems`, also when the tuple is empty. */
  function ItemByStandard(s: Schema, i: nat): Option<Schema> {
    match s.items
    case AnyItems => Some(TYPELESS)
    case ItemsList(list) => Some(list)
    case ItemsTuple(tuple) => if i < |tuple| then Some(tuple[i]) else AdditionalByStandard(s.additionalItems)
  }

  /** Section 5.4.4: names that are not under `properties` fall under `additionalProperties`. */
  function MemberByStandard(s: Schema, name: Bytes): Option<Schema> {
    var i := FindProperty(s.properties, name);
    if i < |s.properties| && s.properties[i].declared then Some(s.properties[i].schema)
    else AdditionalByStandard(s.additionalProperties)
  }

  /** Section 5.4.3: every required name is there. */
  predicate RequiredByStandard(s: Schema, ms: seq<TreeMember>) {
    forall k :: 0 <= k < |s.properties| && s.properties[k].required ==> HasMember(ms, s.properties[k].name)
  }

  /** The meaning of a schema by the specification. */
  ghost predicate Satisfies(s: Schema, t: Tree)
    decreases t, s, 1
  {
    OwnByStandard(s, t) && CombinedByStandard(s, t)
  }

  ghost predicate CombinedByStandard(s: Schema, t: Tree)
    decreases t, s, 0
  {
    && AllSatisfied(s.allOf, t)
    && (s.anyOf != [] ==> AnySatisfied(s.anyOf, t))
    && (s.oneOf != [] ==> OneSatisfied(s.oneOf, t))
    && (s.negated.Some? ==> !Satisfies(s.negated.value, t))
  }

  ghost predicate AllSatisfied(xs: seq<Schema>, t: Tree)
    decreases t, xs, 0
  {
    forall i :: 0 <= i < |xs| ==> Satisfies(xs[i], t)
  }

  ghost predicate AnySatisfied(xs: seq<Schema>, t: Tree)
    decreases t, xs, 0
  {
    exists i :: 0 <= i < |xs| && Satisfies(xs[i], t)
  }

  ghost predicate OneSatisfied(xs: seq<Schema>, t: Tree)
    decreases t, xs, 0
  {
    exists i :: 0 <= i < |xs| && Satisfies(xs[i], t) && forall j :: 0 <= j < |xs| && Satisfies(xs[j], t) ==> j == i
  }

  ghost predicate OwnByStandard(s: Schema, t: Tree)
    decreases t, s, 0
  {
    TypesByStandard(t) * s.types != {} &&
    match t
    case Leaf(e) =>
      && (e.String? ==> LengthByStandard(s, e.s))
      && (e.Double? ==> s.floating.doubles(e.lexeme))
      && (e.Int? || e.Uint? || e.Int64? || e.Uint64? ==> WithinByStandard(s, e.i))
    case Arr(ts) =>
      && CountByStandard(|ts|, s.minItems, s.maxItems)
      && forall i :: 0 <= i < |ts| ==> ItemByStandard(s, i).Some? && Satisfies(ItemByStandard(s, i).value, ts[i])
    case Obj(ms) =>
      && CountByStandard(|ms|, s.minProperties, s.maxProperties) && RequiredByStandard(s, ms)
      && forall i :: 0 <= i < |ms| ==>
           MemberByStandard(s, ms[i].name).Some? && Satisfies(MemberByStandard(s, ms[i].name).value, ms[i].tree)
  }

  // ------------------------------------------------------------ where they part

  /** No required name has a default that is a non-empty string. */
  predicate NoneExcused(s: Schema) {
    forall k :: 0 <= k < |s.properties| && s.properties[k].required ==> s.properties[k].schema.defaultValueLength == 0
  }

  ghost predicate AllowsAll(a: Additional) {
    a == Allowed || a == Must(TYPELESS)
  }

  /** Additional members are allowed, or every required name is under `properties` as well. */
  ghost predicate NoneUndeclared(s: Schema) {
    AllowsAll(s.additionalProperties) || forall k :: 0 <= k < |s.properties| ==> s.properties[k].declared
  }

  /** Additional elements are allowed, or the tuple, if there is one, has a schema in it. */
  ghost predicate TupleNotEmpty(s: Schema) {
    AllowsAll(s.additionalItems) || s.items != ItemsTuple([])
  }

  lemma {:induction false} RequiredExactlyWhen(s: Schema)
    requires TableOk(s)
    ensures (forall ms :: RequiredHolds(s, ms) == RequiredByStandard(s, ms)) <==> NoneExcused(s)
  {
    if !NoneExcused(s) {
      var k :| 0 <= k < |s.properties| && s.properties[k].required && s.properties[k].schema.defaultValueLength > 0;
      AllButOne(s, k);
    }
  }

  /** An object with all the names of the table but one that is excused. */
  lemma {:induction false} AllButOne(s: Schema, k: nat)
    requires TableOk(s) && k < |s.properties| && s.properties[k].required && s.properties[k].schema.defaultValueLength > 0
    ensures exists ms :: RequiredHolds(s, ms) && !RequiredByStandard(s, ms)
  {
    var ps := s.properties[..k] + s.properties[k + 1..];
    var ms := seq(|ps|, i requires 0 <= i < |ps| => TreeMember(ps[i].name, Leaf(Null)));
    forall j | 0 <= j < |s.properties| && j != k ensures HasMember(ms, s.properties[j].name) {
      var i := if j < k then j else j - 1;
      assert ms[i].name == s.properties[j].name;
    }
    forall i | 0 <= i < |ms| ensures ms[i].name != s.properties[k].name {
      assert ps[i] == s.properties[if i < k then i else i + 1];
    }
    assert RequiredHolds(s, ms) && !HasMember(ms, s.properties[k].name);
  }

  lemma {:induction false} MembersExactlyWhen(s: Schema)
    requires TableOk(s)
    ensures (forall name :: MemberSchema(s, name) == MemberByStandard(s, name)) <==> NoneUndeclared(s)
  {
    if !NoneUndeclared(s) {
      var k :| 0 <= k < |s.properties| && !s.properties[k].declared;
      assert FindProperty(s.properties, s.properties[k].name) == k;
      assert MemberSchema(s, s.properties[k].name) != MemberByStandard(s, s.properties[k].name);
    }
  }

  lemma {:induction false} ItemsExactlyWhen(s: Schema)
    ensures (forall i: nat :: ItemSchema(s, i) == ItemByStandard(s, i)) <==> TupleNotEmpty(s)
  {
    if !TupleNotEmpty(s) {
      assert ItemSchema(s, 0) != ItemByStandard(s, 0);
    }
  }

  // ------------------------------------------------------------ where they agree

  ghost predicate Conforms(s: Schema) {
    NoneExcused(s) && NoneUndeclared(s) && TupleNotEmpty(s)
  }

  /** At every level. */
  ghost predicate AllConform(s: Schema) {
    && Conforms(s)
    && (s.items.ItemsList? ==> AllConform(s.items.schema))
    && (s.items.ItemsTuple? ==> forall i :: 0 <= i < |s.items.schemas| ==> AllConform(s.items.schemas[i]))
    && (s.additionalItems.Must? ==> AllConform(s.additionalItems.schema))
    && (forall i :: 0 <= i < |s.properties| ==> AllConform(s.properties[i].schema))
    && (s.additionalProperties.Must? ==> AllConform(s.additionalProperties.schema))
    && (forall i :: 0 <= i < |s.allOf| ==> AllConform(s.allOf[i]))
    && (forall i :: 0 <= i < |s.anyOf| ==> AllConform(s.anyOf[i]))
    && (forall i :: 0 <= i < |s.oneOf| ==> AllConform(s.oneOf[i]))
    && (s.negated.Some? ==> AllConform(s.negated.value))
  }

  ghost predicate Good(s: Schema) {
    SchemaOk(s) && AllConform(s)
  }

  lemma {:induction false} ItemGood(s: Schema, i: nat)
    requires Good(s) && ItemByStandard(s, i).Some?
    ensures ItemSchema(s, i) == ItemByStandard(s, i) && Good(ItemByStandard(s, i).value)
  {
    ItemsExactlyWhen(s);
    assert SchemaOk(TYPELESS) && AllConform(TYPELESS);
  }

  lemma {:induction false} MemberGood(s: Schema, name: Bytes)
    requires Good(s) && MemberByStandard(s, name).Some?
    ensures MemberSchema(s, name) == MemberByStandard(s, name) && Good(MemberByStandard(s, name).value)
  {
    MembersExactlyWhen(s);
    assert SchemaOk(TYPELESS) && AllConform(TYPELESS);
  }

  lemma {:induction false} SubsGood(s: Schema)
    requires Good(s)
    ensures forall i :: 0 <= i < |s.allOf| ==> Good(s.allOf[i])
    ensures forall i :: 0 <= i < |s.anyOf| ==> Good(s.anyOf[i])
    ensures forall i :: 0 <= i < |s.oneOf| ==> Good(s.oneOf[i])
    ensures s.negated.Some? ==> Good(s.negated.value)
  {
  }

  /** Where every schema conforms, what the validator decides is what the specification says. */
  lemma {:induction false} MeaningIsStandard(s: Schema, t: Tree)
    requires Good(s)
    ensures Holds(s, t) == Satisfies(s, t)
    decreases t, s, 1
  {
    hide Good, Own, OwnByStandard, Combined, CombinedByStandard;
    OwnIsStandard(s, t);
    SubsGood(s);
    AllAgree(s.allOf, t);
    AllAgree(s.anyOf, t);
    AllAgree(s.oneOf, t);
    if s.negated.Some? {
      MeaningIsStandard(s.negated.value, t);
    }
    CombinedIsStandard(s, t);
  }

  lemma {:induction false} AllAgree(xs: seq<Schema>, t: Tree)
    requires forall i :: 0 <= i < |xs| ==> Good(xs[i])
    ensures forall i :: 0 <= i < |xs| ==> Holds(xs[i], t) == Satisfies(xs[i], t)
    decreases t, xs, 0
  {
    hide Good, Holds, Satisfies;
    forall i | 0 <= i < |xs| ensures Holds(xs[i], t) == Satisfies(xs[i], t) {
      MeaningIsStandard(xs[i], t);
    }
  }

  lemma {:induction false} CombinedIsStandard(s: Schema, t: Tree)
    requires forall i :: 0 <= i < |s.allOf| ==> Holds(s.allOf[i], t) == Satisfies(s.allOf[i], t)
    requires forall i :: 0 <= i < |s.anyOf| ==> Holds(s.anyOf[i], t) == Satisfies(s.anyOf[i], t)
    requires forall i :: 0 <= i < |s.oneOf| ==> Holds(s.oneOf[i], t) == Satisfies(s.oneOf[i], t)
    requires s.negated.Some? ==> Holds(s.negated.value, t) == Satisfies(s.negated.value, t)
    ensures Combined(s, t) == CombinedByStandard(s, t)
  {
    hide Holds, Satisfies, AllHold, AnyHolds, OneHolds, AllSatisfied, AnySatisfied, OneSatisfied;
    AllIsStandard(s.allOf, t);
    AnyIsStandard(s.anyOf, t);
    OneIsStandard(s.oneOf, t);
  }

  lemma {:induction false} AllIsStandard(xs: seq<Schema>, t: Tree)
    requires forall i :: 0 <= i < |xs| ==> Holds(xs[i], t) == Satisfies(xs[i], t)
    ensures AllHold(xs, t) <==> AllSatisfied(xs, t)
  {
    hide Holds, Satisfies;
  }

  lemma {:induction false} AnyIsStandard(xs: seq<Schema>, t: Tree)
    requires forall i :: 0 <= i < |xs| ==> Holds(xs[i], t) == Satisfies(xs[i], t)
    ensures AnyHolds(xs, t) <==> AnySatisfied(xs, t)
  {
    hide Holds, Satisfies;
    if i :| 0 <= i < |xs| && Satisfies(xs[i], t) {
      assert Holds(xs[i], t);
    }
  }

  lemma {:induction false} OneIsStandard(xs: seq<Schema>, t: Tree)
    requires forall i :: 0 <= i < |xs| ==> Holds(xs[i], t) == Satisfies(xs[i], t)
    ensures OneHolds(xs, t) <==> OneSatisfied(xs, t)
  {
    hide Holds, Satisfies;
    if OneHolds(xs, t) {
      var i :| 0 <= i < |xs| && Holds(xs[i], t) && forall j :: 0 <= j < |xs| && Holds(xs[j], t) ==> j == i;
      assert Satisfies(xs[i], t) && forall j :: 0 <= j < |xs| && Satisfies(xs[j], t) ==> j == i;
    }
    if OneSatisfied(xs, t) {
      var i :| 0 <= i < |xs| && Satisfies(xs[i], t) && forall j :: 0 <= j < |xs| && Satisfies(xs[j], t) ==> j == i;
      assert Holds(xs[i], t) && forall j :: 0 <= j < |xs| && Holds(xs[j], t) ==> j == i;
    }
  }

  lemma {:induction false} TypesAreStandard(s: Schema, t: Tree)
    ensures TypesByStandard(t) * s.types != {} <==>
      match t
      case Leaf(e) =>
        || (e.Null? && NullType in s.types) || (e.Bool? && BooleanType in s.types) || (e.String? && StringType in s.types)
        || (e.Double? && NumberType in s.types)
        || ((e.Int? || e.Uint? || e.Int64? || e.Uint64?) && (IntegerType in s.types || NumberType in s.types))
      case Arr(_) => ArrayType in s.types
      case Obj(_) => ObjectType in s.types
  {
    var both := TypesByStandard(t) * s.types;
    assert both != {} ==> exists x :: x in both;
    assert forall x :: x in TypesByStandard(t) && x in s.types ==> x in both;
  }

  /** Type, bounds and length. */
  lemma {:induction false} ScalarIsStandard(s: Schema, e: Event)
    ensures Own(s, Leaf(e)) <==> OwnByStandard(s, Leaf(e))
  {
    TypesAreStandard(s, Leaf(e));
    if e.String? {
      LengthIsStandard(s, e.s);
    }
  }

  lemma {:induction false} LengthIsStandard(s: Schema, text: Bytes)
    ensures LengthHolds(s, text) <==> LengthByStandard(s, text)
  {
    CodePointsExactly(text);
  }

  lemma {:induction false} OwnIsStandard(s: Schema, t: Tree)
    requires Good(s)
    ensures Own(s, t) == OwnByStandard(s, t)
    decreases t, s, 0
  {
    hide Holds, Satisfies, Good, ItemByStandard, MemberByStandard, ItemSchema, MemberSchema, RequiredHolds, RequiredByStandard;
    TypesAreStandard(s, t);
    match t
    case Leaf(e) => ScalarIsStandard(s, e);
    case Arr(ts) =>
      forall i | 0 <= i < |ts|
        ensures ElementHolds(s, i, ts[i])
            <==> ItemByStandard(s, i).Some? && Satisfies(ItemByStandard(s, i).value, ts[i])
      {
        SameItems(s, i);
        if ItemByStandard(s, i).Some? {
          ItemGood(s, i);
          MeaningIsStandard(ItemByStandard(s, i).value, ts[i]);
        }
      }
      assert forall i :: 0 <= i < |ts| ==> ElementHolds(s, 0 + i, ts[i]) == ElementHolds(s, i, ts[i]);
    case Obj(ms) =>
      SameTables(s, ms);
      forall i | 0 <= i < |ms|
        ensures MemberHolds(s, ms[i])
            <==> MemberByStandard(s, ms[i].name).Some? && Satisfies(MemberByStandard(s, ms[i].name).value, ms[i].tree)
      {
        if MemberByStandard(s, ms[i].name).Some? {
          MemberGood(s, ms[i].name);
          MeaningIsStandard(MemberByStandard(s, ms[i].name).value, ms[i].tree);
        }
      }
  }

  lemma {:induction false} SameItems(s: Schema, i: nat)
    requires Good(s)
    ensures ItemSchema(s, i) == ItemByStandard(s, i)
  {
    ItemsExactlyWhen(s);
  }

  lemma {:induction false} SameTables(s: Schema, ms: seq<TreeMember>)
    requires Good(s)
    ensures RequiredHolds(s, ms) == RequiredByStandard(s, ms)
    ensures forall i :: 0 <= i < |ms| ==> MemberSchema(s, ms[i].name) == MemberByStandard(s, ms[i].name)
  {
    RequiredExactlyWhen(s);
    MembersExactlyWhen(s);
  }

  /** Streaming validation follows the specification for every schema that conforms at every level. */
  lemma {:induction false} ValidatesToStandard(s: Schema, t: Tree)
    requires SchemaOk(s) && AllConform(s) && TreeOk(t)
    ensures Run(Fresh(s), TreeEvents(t)) == if Satisfies(s, t) then Fresh(s) else Dead(s)
  {
    ValidatesExactly(s, t);
    MeaningIsStandard(s, t);
  }

  lemma {:induction false} NothingCombined(s: Schema, t: Tree)
    requires s.allOf == [] && s.anyOf == [] && s.oneOf == [] && s.negated.None?
    ensures Combined(s, t) && (Own(s, t) ==> Holds(s, t))
  {
    hide Own;
  }

  // ------------------------------------------------------------ texts on which they part

  lemma {:induction false} WitnessesAreOk()
    ensures SchemaOk(TYPELESS.(properties := [Property([0x61], TYPELESS.(defaultValueLength := 1), true, true)]))
    ensures SchemaOk(TYPELESS.(properties := [Property([0x61], TYPELESS, true, false)], additionalProperties := Forbidden))
    ensures SchemaOk(TYPELESS.(items := ItemsTuple([]), additionalItems := Forbidden))
  {
    hide SchemaOk;
    PropertyWitnessesAreOk();
    TupleWitnessIsOk();
  }

  lemma {:induction false} TypelessOk()
    ensures SchemaOk(TYPELESS) && SchemaOk(TYPELESS.(defaultValueLength := 1))
  {
  }

  lemma {:induction false} PropertyWitnessesAreOk()
    ensures SchemaOk(TYPELESS.(properties := [Property([0x61], TYPELESS.(defaultValueLength := 1), true, true)]))
    ensures SchemaOk(TYPELESS.(properties := [Property([0x61], TYPELESS, true, false)], additionalProperties := Forbidden))
  {
    TypelessOk();
  }

  lemma {:induction false} TupleWitnessIsOk()
    ensures SchemaOk(TYPELESS.(items := ItemsTuple([]), additionalItems := Forbidden))
  {
  }

  /** `{"properties": {"a": {"default": "x"}}, "required": ["a"]}` accepts the empty object. */
  lemma {:induction false} ExcusedByDefault()
    ensures var s := TYPELESS.(properties := [Property([0x61], TYPELESS.(defaultValueLength := 1), true, true)]);
            Run(Fresh(s), [StartObject, EndObject(0)]) == Fresh(s) && !Satisfies(s, Obj([]))
  {
    var a := Property([0x61], TYPELESS.(defaultValueLength := 1), true, true);
    var s := TYPELESS.(properties := [a]);
    hide Combined, Holds, Run, SchemaOk;
    assert SchemaOk(s) by { WitnessesAreOk(); }
    assert Own(s, Obj([]));
    NothingCombined(s, Obj([]));
    ValidatesExactly(s, Obj([]));
    assert TreeEvents(Obj([])) == [StartObject, EndObject(0)];
    assert s.properties[0].required && !HasMember([], [0x61]);
  }

  /** `{"required": ["a"], "additionalProperties": false}` accepts `{"a": null}`. */
  lemma {:induction false} RequiredCountsAsDeclared()
    ensures var s := TYPELESS.(properties := [Property([0x61], TYPELESS, true, false)], additionalProperties := Forbidden);
            && Run(Fresh(s), [StartObject, Key([0x61]), Null, EndObject(1)]) == Fresh(s)
            && !Satisfies(s, Obj([TreeMember([0x61], Leaf(Null))]))
  {
    hide Holds, Run, SchemaOk, Satisfies;
    var s := TYPELESS.(properties := [Property([0x61], TYPELESS, true, false)], additionalProperties := Forbidden);
    var t := Obj([TreeMember([0x61], Leaf(Null))]);
    WitnessesAreOk();
    DeclaredHolds(s);
    DeclaredIsAdditional(s);
    ValidatesExactly(s, t);
    assert TreeEvents(t) == [StartObject, Key([0x61]), Null, EndObject(1)] by { EventsOfOne(); }
  }

  lemma {:induction false} EventsOfOne()
    ensures TreeEvents(Obj([TreeMember([0x61], Leaf(Null))])) == [StartObject, Key([0x61]), Null, EndObject(1)]
  {
    var m := TreeMember([0x61], Leaf(Null));
    assert [m][1..] == [];
    assert MemberEvents([m]) == [Key([0x61]), Null];
  }

  lemma {:induction false} DeclaredHolds(s: Schema)
    requires s == TYPELESS.(properties := [Property([0x61], TYPELESS, true, false)], additionalProperties := Forbidden)
    ensures Holds(s, Obj([TreeMember([0x61], Leaf(Null))]))
  {
    hide Combined, Holds;
    var m := TreeMember([0x61], Leaf(Null));
    NothingCombined(TYPELESS, Leaf(Null));
    NothingCombined(s, Obj([m]));
    assert [m][0].name == [0x61];
    assert Own(s, Obj([m])) by { assert MemberHolds(s, m); assert HasMember([m], [0x61]); }
  }

  lemma {:induction false} DeclaredIsAdditional(s: Schema)
    requires s == TYPELESS.(properties := [Property([0x61], TYPELESS, true, false)], additionalProperties := Forbidden)
    ensures !Satisfies(s, Obj([TreeMember([0x61], Leaf(Null))]))
  {
    hide CombinedByStandard;
    var m := TreeMember([0x61], Leaf(Null));
    assert MemberByStandard(s, [m][0].name) == None;
  }

  /** `{"items": [], "additionalItems": false}` accepts `[null]`. */
  lemma {:induction false} EmptyTupleIsNone()
    ensures var s := TYPELESS.(items := ItemsTuple([]), additionalItems := Forbidden);
            && Run(Fresh(s), [StartArray, Null, EndArray(1)]) == Fresh(s)
            && !Satisfies(s, Arr([Leaf(Null)]))
  {
    var s := TYPELESS.(items := ItemsTuple([]), additionalItems := Forbidden);
    var t := Arr([Leaf(Null)]);
    hide Combined, Holds, Run, SchemaOk;
    assert SchemaOk(s) by { WitnessesAreOk(); }
    NothingCombined(TYPELESS, Leaf(Null));
    NothingCombined(s, t);
    assert ElementHolds(s, 0 + 0, t.elems[0]);
    assert Own(s, t);
    ValidatesExactly(s, t);
    assert ElemEvents(t.elems) == [Null] by { assert t.elems[1..] == []; }
    assert TreeEvents(t) == [StartArray, Null, EndArray(1)];
    assert ItemByStandard(s, 0) == None;
  }
}
