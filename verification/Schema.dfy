/**
 Schemas as the compiler leaves them, and what they mean: which trees satisfy them.
 */
module Schema {
  import opened Options
  import opened Json
  import opened Encodings
  import opened Document

  datatype SimpleType = NullType | BooleanType | ObjectType | ArrayType | StringType | NumberType | IntegerType

  const ALL_TYPES: set<SimpleType> := {NullType, BooleanType, ObjectType, ArrayType, StringType, NumberType, IntegerType}

  datatype Items = AnyItems | ItemsList(schema: Schema) | ItemsTuple(schemas: seq<Schema>)

  datatype Additional = Allowed | Forbidden | Must(schema: Schema)

  /** An entry of the property table: the names under `properties` and `required`. A name that is only required
      has a schema that accepts everything. */
  datatype Property = Property(name: Bytes, schema: Schema, required: bool, declared: bool)

  /** The comparisons with the bounds in which a floating-point number takes part: of such a number, and of an integer
      with such a bound. */
  datatype Floating = Floating(doubles: Bytes -> bool, integers: int -> bool)

  /** `minimum` and `maximum` are the bounds that are integers. Without an upper limit on items, properties or length
      there is None. */
  datatype Schema = Schema(
    types: set<SimpleType>,
    minimum: Option<int>, exclusiveMinimum: bool,
    maximum: Option<int>, exclusiveMaximum: bool,
    floating: Floating,
    minLength: nat, maxLength: Option<nat>,
    items: Items, additionalItems: Additional, minItems: nat, maxItems: Option<nat>,
    properties: seq<Property>, additionalProperties: Additional, minProperties: nat, maxProperties: Option<nat>,
    allOf: seq<Schema>, anyOf: seq<Schema>, oneOf: seq<Schema>, negated: Option<Schema>,
    defaultValueLength: nat)

  function NoFloating(): Floating {
    Floating(text => true, n => true)
  }

  /** The schema that accepts everything. */
  const TYPELESS: Schema := Schema(ALL_TYPES, None, false, None, false, NoFloating(), 0, None,
                                   AnyItems, Allowed, 0, None, [], Allowed, 0, None, [], [], [], None, 0)

  /** What the constructor guarantees of one schema: bounds are 64-bit integers, the names of the table differ,
      and a name that is only required has the schema that accepts everything. */
  ghost predicate TableOk(s: Schema) {
    && (s.minimum.Some? ==> IsInt64(s.minimum.value) || IsUint64(s.minimum.value))
    && (s.maximum.Some? ==> IsInt64(s.maximum.value) || IsUint64(s.maximum.value))
    && (forall i, j :: 0 <= i < j < |s.properties| ==> s.properties[i].name != s.properties[j].name)
    && (forall i :: 0 <= i < |s.properties| && !s.properties[i].declared ==> s.properties[i].schema == TYPELESS)
  }

  // ------------------------------------------------------------ meaning

  /** The number of code points of a string, if it is well-formed UTF-8. */
  function CodePoints(s: Bytes): Option<nat>
    decreases |s|
  {
    if s == [] then Some(0)
    else
      var d := DecodeUtf8(s);
      if !d.ok || d.taken == 0 || d.taken > |s| then None
      else match CodePoints(s[d.taken..])
        case None => None
        case Some(n) => Some(n + 1)
  }

  /** The encoding of any scalar values has as many code points as there are values. */
  lemma {:induction false} CodePointsOfText(cs: seq<nat>)
    requires AllScalar(cs)
    ensures CodePoints(Utf8Text(cs)) == Some(|cs|)
  {
    hide EncodeUtf8, DecodeUtf8;
    if cs != [] {
      var first, rest := EncodeUtf8(cs[0]), Utf8Text(cs[1..]);
      DecodeInvertsEncode(cs[0], rest);
      EncodeIsNotEmpty(cs[0]);
      assert (first + rest)[|first|..] == rest;
      CodePointsOfText(cs[1..]);
    }
  }

  lemma {:induction false} EncodeIsNotEmpty(c: nat)
    requires IsScalarValue(c)
    ensures EncodeUtf8(c) != []
  {
  }

  /** What is counted is the encoding of some scalar values. */
  lemma {:induction false} CountedIsText(s: Bytes) returns (cs: seq<nat>)
    requires CodePoints(s).Some?
    ensures AllScalar(cs) && Utf8Text(cs) == s
    decreases |s|
  {
    hide EncodeUtf8, DecodeUtf8;
    cs := [];
    if s != [] {
      var d := DecodeUtf8(s);
      DecodeAcceptsExactly(s);
      var rest := CountedIsText(s[d.taken..]);
      cs := [d.codepoint] + rest;
      assert cs[1..] == rest && s == s[..d.taken] + s[d.taken..];
    }
  }

  /** The length of a string is the number of scalar values of which it is the encoding, and there is one if and only
      if it is such an encoding. */
  lemma {:induction false} CodePointsExactly(s: Bytes)
    ensures CodePoints(s).Some? <==> exists cs :: AllScalar(cs) && Utf8Text(cs) == s
    ensures forall cs | AllScalar(cs) && Utf8Text(cs) == s :: CodePoints(s) == Some(|cs|)
  {
    if CodePoints(s).Some? {
      var cs := CountedIsText(s);
    }
    forall cs | AllScalar(cs) && Utf8Text(cs) == s ensures CodePoints(s) == Some(|cs|) {
      CodePointsOfText(cs);
    }
  }

  predicate LengthHolds(s: Schema, text: Bytes) {
    match CodePoints(text)
    case None => true
    case Some(n) => s.minLength <= n && AtMost(n, s.maxLength)
  }

  predicate AtMost(n: nat, limit: Option<nat>) {
    limit.Some? ==> n <= limit.value
  }

  predicate WithinBounds(s: Schema, n: int) {
    && (s.minimum.Some? ==> if s.exclusiveMinimum then s.minimum.value < n else s.minimum.value <= n)
    && (s.maximum.Some? ==> if s.exclusiveMaximum then n < s.maximum.value else n <= s.maximum.value)
    && s.floating.integers(n)
  }

  /** Type, bounds and length. */
  predicate ScalarHolds(s: Schema, e: Event)
    requires IsScalar(e)
  {
    match e
    case Null => NullType in s.types
    case Bool(_) => BooleanType in s.types
    case Double(l) => NumberType in s.types && s.floating.doubles(l)
    case String(text) => StringType in s.types && LengthHolds(s, text)
    case _ => (IntegerType in s.types || NumberType in s.types) && WithinBounds(s, e.i)
  }

  /** The schema for the `i`-th element; None where there must not be one. A tuple of no schemas is stored as none:
      the allocator answers null for it. */
  function ItemSchema(s: Schema, i: nat): Option<Schema> {
    match s.items
    case AnyItems => Some(TYPELESS)
    case ItemsList(list) => Some(list)
    case ItemsTuple(tuple) =>
      if tuple == [] then Some(TYPELESS)
      else if i < |tuple| then Some(tuple[i])
      else AdditionalSchema(s.additionalItems)
  }

  function AdditionalSchema(a: Additional): Option<Schema> {
    match a
    case Allowed => Some(TYPELESS)
    case Forbidden => None
    case Must(schema) => Some(schema)
  }

  /** Where a name is in the property table; the length of the table if it is not there. */
  function FindProperty(ps: seq<Property>, name: Bytes): (i: nat)
    ensures i <= |ps| && (i < |ps| ==> ps[i].name == name)
    ensures forall j :: 0 <= j < i ==> ps[j].name != name
  {
    if ps == [] || ps[0].name == name then 0 else 1 + FindProperty(ps[1..], name)
  }

  /** The schema for the member of a name; None where there must not be one. */
  function MemberSchema(s: Schema, name: Bytes): Option<Schema> {
    var i := FindProperty(s.properties, name);
    if i < |s.properties| then Some(s.properties[i].schema) else AdditionalSchema(s.additionalProperties)
  }

  predicate HasMember(ms: seq<TreeMember>, name: Bytes) {
    exists i :: 0 <= i < |ms| && ms[i].name == name
  }

  /** Required names are there, unless the schema of the name has a default that is not the empty string. */
  predicate RequiredHolds(s: Schema, ms: seq<TreeMember>) {
    forall k :: 0 <= k < |s.properties| && s.properties[k].required ==>
      HasMember(ms, s.properties[k].name) || s.properties[k].schema.defaultValueLength > 0
  }

  /** What a schema means for a tree. */
  predicate Holds(s: Schema, t: Tree)
    decreases t, s, 1
  {
    Own(s, t) && Combined(s, t)
  }

  /** The keywords that combine schemas: all of, any of, exactly one of, and not. */
  predicate Combined(s: Schema, t: Tree)
    decreases t, s, 0
  {
    && AllHold(s.allOf, t)
    && (s.anyOf != [] ==> AnyHolds(s.anyOf, t))
    && (s.oneOf != [] ==> OneHolds(s.oneOf, t))
    && (s.negated.Some? ==> !Holds(s.negated.value, t))
  }

  predicate AllHold(xs: seq<Schema>, t: Tree)
    decreases t, xs, 0
  {
    forall i :: 0 <= i < |xs| ==> Holds(xs[i], t)
  }

  predicate AnyHolds(xs: seq<Schema>, t: Tree)
    decreases t, xs, 0
  {
    exists i :: 0 <= i < |xs| && Holds(xs[i], t)
  }

  predicate OneHolds(xs: seq<Schema>, t: Tree)
    decreases t, xs, 0
  {
    exists i :: 0 <= i < |xs| && Holds(xs[i], t) && forall j :: 0 <= j < |xs| && Holds(xs[j], t) ==> j == i
  }

  /** The other keywords. */
  predicate Own(s: Schema, t: Tree)
    decreases t, s, 0
  {
    match t
    case Leaf(e) => IsScalar(e) && ScalarHolds(s, e)
    case Arr(ts) =>
      ArrayType in s.types && s.minItems <= |ts| && AtMost(|ts|, s.maxItems) && ElementsHold(s, 0, ts)
    case Obj(ms) =>
      ObjectType in s.types && s.minProperties <= |ms| && AtMost(|ms|, s.maxProperties) && RequiredHolds(s, ms)
      && MembersHold(s, ms)
  }

  /** The elements from the `n`-th on. */
  predicate ElementsHold(s: Schema, n: nat, ts: seq<Tree>)
    decreases ts
  {
    forall i :: 0 <= i < |ts| ==> ElementHolds(s, n + i, ts[i])
  }

  predicate ElementHolds(s: Schema, i: nat, t: Tree)
    decreases t
  {
    ItemSchema(s, i).Some? && Holds(ItemSchema(s, i).value, t)
  }

  predicate MembersHold(s: Schema, ms: seq<TreeMember>)
    decreases ms
  {
    forall i :: 0 <= i < |ms| ==> MemberHolds(s, ms[i])
  }

  predicate MemberHolds(s: Schema, m: TreeMember)
    decreases m
  {
    MemberSchema(s, m.name).Some? && Holds(MemberSchema(s, m.name).value, m.tree)
  }

  // ------------------------------------------------------------ well-formedness

  /** What the compiler guarantees at every level. */
  ghost predicate SchemaOk(s: Schema) {
    && TableOk(s)
    && (s.items.ItemsList? ==> SchemaOk(s.items.schema))
    && (s.items.ItemsTuple? ==> forall i :: 0 <= i < |s.items.schemas| ==> SchemaOk(s.items.schemas[i]))
    && (s.additionalItems.Must? ==> SchemaOk(s.additionalItems.schema))
    && (forall i :: 0 <= i < |s.properties| ==> SchemaOk(s.properties[i].schema))
    && (s.additionalProperties.Must? ==> SchemaOk(s.additionalProperties.schema))
    && (forall i :: 0 <= i < |s.allOf| ==> SchemaOk(s.allOf[i]))
    && (forall i :: 0 <= i < |s.anyOf| ==> SchemaOk(s.anyOf[i]))
    && (forall i :: 0 <= i < |s.oneOf| ==> SchemaOk(s.oneOf[i]))
    && (s.negated.Some? ==> SchemaOk(s.negated.value))
  }

  /** Trees whose integers fit the events that carry them. */
  predicate TreeOk(t: Tree) {
    match t
    case Leaf(e) =>
      && IsScalar(e)
      && (e.Int? || e.Int64? ==> IsInt64(e.i))
      && (e.Uint? || e.Uint64? ==> IsUint64(e.i))
    case Arr(ts) => forall i :: 0 <= i < |ts| ==> TreeOk(ts[i])
    case Obj(ms) => forall i :: 0 <= i < |ms| ==> TreeOk(ms[i].tree)
  }
}
