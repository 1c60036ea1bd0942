/**
 The streaming validator as a function on its state: a stack of contexts, one for each value that is open, each
 with the validators that run in parallel for the combining keywords of its schema.
 */
module Validation {
  import opened Options
  import opened Json
  import opened Document
  import opened Schema

  /** One open value. `exist` says which properties of the table were seen, where the schema asks for some. */
  datatype Context = Context(
    schema: Schema,
    validators: seq<Validator>,
    inArray: bool,
    arrayElementIndex: nat,
    valueSchema: Option<Schema>,
    exist: seq<bool>)

  datatype Validator = Validator(root: Schema, valid: bool, stack: seq<Context>)

  function Fresh(root: Schema): Validator {
    Validator(root, true, [])
  }

  /** Once invalid, a validator ignores what follows. */
  function Dead(root: Schema): Validator {
    Validator(root, false, [])
  }

  /** The schemas of the combining keywords in the order of their validators. */
  function Subs(s: Schema): seq<Schema> {
    s.allOf + s.anyOf + s.oneOf + if s.negated.Some? then [s.negated.value] else []
  }

  lemma {:induction false} SubIsSmaller(s: Schema, i: nat)
    requires i < |Subs(s)|
    ensures Subs(s)[i] < s
  {
  }

  // ------------------------------------------------------------ the event methods of one schema

  predicate CheckType(s: Schema, e: Event) {
    match e
    case Null => NullType in s.types
    case Bool(_) => BooleanType in s.types
    case Double(_) => NumberType in s.types
    case String(_) => StringType in s.types
    case StartObject => ObjectType in s.types
    case StartArray => ArrayType in s.types
    case _ => IntegerType in s.types || NumberType in s.types
  }

  /** Bounds of a number that came as a signed integer. */
  predicate CheckInt(s: Schema, i: int) {
    && (s.minimum.Some? ==>
          if IsInt64(s.minimum.value) then (if s.exclusiveMinimum then i > s.minimum.value else i >= s.minimum.value)
          else false)
    && (s.maximum.Some? ==>
          if IsInt64(s.maximum.value) then (if s.exclusiveMaximum then i < s.maximum.value else i <= s.maximum.value)
          else true)
    && s.floating.integers(i)
  }

  /** Bounds of a number that came as an unsigned integer. */
  predicate CheckUint(s: Schema, i: int) {
    && (s.minimum.Some? ==>
          if IsUint64(s.minimum.value) then (if s.exclusiveMinimum then i > s.minimum.value else i >= s.minimum.value)
          else true)
    && (s.maximum.Some? ==>
          if IsUint64(s.maximum.value) then (if s.exclusiveMaximum then i < s.maximum.value else i <= s.maximum.value)
          else false)
    && s.floating.integers(i)
  }

  /** What a schema asks of the first event of a value. */
  predicate Admits(s: Schema, e: Event) {
    CheckType(s, e) &&
    match e
    case Int(i) => CheckInt(s, i)
    case Int64(i) => CheckInt(s, i)
    case Uint(i) => CheckUint(s, i)
    case Uint64(i) => CheckUint(s, i)
    case Double(l) => s.floating.doubles(l)
    case String(text) => LengthHolds(s, text)
    case _ => true
  }

  predicate HasRequired(s: Schema) {
    exists k :: 0 <= k < |s.properties| && s.properties[k].required
  }

  /** Before a value in an array: takes the schema of the element; None if it is disallowed. */
  function PlaceElement(c: Context): Option<Context> {
    if !c.inArray then Some(c)
    else match ItemSchema(c.schema, c.arrayElementIndex)
      case None => None
      case Some(_) => Some(c.(arrayElementIndex := c.arrayElementIndex + 1))
  }

  /** The schema of the value that begins. */
  function NextSchema(c: Context): Option<Schema> {
    if c.inArray then ItemSchema(c.schema, c.arrayElementIndex) else c.valueSchema
  }

  /** A name chooses the schema of its value; in an array, where there are none, it would not be used. */
  function SeeKey(c: Context, name: Bytes): Option<Context> {
    var i := FindProperty(c.schema.properties, name);
    match MemberSchema(c.schema, name)
    case None => None
    case Some(s) =>
      Some(c.(valueSchema := if c.inArray then None else Some(s),
              exist := if i < |c.exist| then c.exist[i := true] else c.exist))
  }

  predicate NoneMissing(c: Context) {
    forall k :: 0 <= k < |c.schema.properties| && k < |c.exist| ==>
      c.schema.properties[k].required ==> c.exist[k] || c.schema.properties[k].schema.defaultValueLength > 0
  }

  /** What a schema asks at the closing bracket. */
  predicate Closes(c: Context, e: Event) {
    match e
    case EndArray(n) => c.schema.minItems <= n && AtMost(n, c.schema.maxItems)
    case EndObject(n) => NoneMissing(c) && c.schema.minProperties <= n && AtMost(n, c.schema.maxProperties)
    case _ => true
  }

  /** The verdicts of the parallel validators combined: all, any, exactly one, and not. */
  predicate Combine(s: Schema, valid: seq<bool>)
    requires |valid| == |Subs(s)|
  {
    var a, b, c := |s.allOf|, |s.allOf| + |s.anyOf|, |s.allOf| + |s.anyOf| + |s.oneOf|;
    && AllValid(valid[..a])
    && (s.anyOf != [] ==> AnyValid(valid[a..b]))
    && (s.oneOf != [] ==> OneValid(valid[b..c]))
    && (s.negated.Some? ==> !valid[c])
  }

  predicate AllValid(valid: seq<bool>) {
    forall i :: 0 <= i < |valid| ==> valid[i]
  }

  predicate AnyValid(valid: seq<bool>) {
    exists i :: 0 <= i < |valid| && valid[i]
  }

  predicate OneValid(valid: seq<bool>) {
    exists i :: 0 <= i < |valid| && valid[i] && forall j :: 0 <= j < |valid| && valid[j] ==> j == i
  }

  function Verdicts(c: Context): seq<bool> {
    seq(|c.validators|, i requires 0 <= i < |c.validators| => c.validators[i].valid)
  }

  predicate EndsWell(c: Context) {
    |c.validators| == |Subs(c.schema)| && Combine(c.schema, Verdicts(c))
  }

  // ------------------------------------------------------------ events

  /** The context of a value that begins with `e`, its parallel validators having received `e` too. */
  function Entered(s: Schema, e: Event): Context
    decreases s, 0
  {
    Context(s,
            seq(|Subs(s)|, i requires 0 <= i < |Subs(s)| => SubIsSmaller(s, i); Begin(Subs(s)[i], [], Subs(s)[i], e)),
            e.StartArray?, 0, None,
            if e.StartObject? && HasRequired(s) then seq(|s.properties|, i => false) else [])
  }

  /** The value that `e` begins has schema `s`; `below` is the stack, which has received `e`. */
  function Begin(root: Schema, below: seq<Context>, s: Schema, e: Event): Validator
    decreases s, 1
  {
    if !Admits(s, e) then Dead(root)
    else if !IsScalar(e) then Validator(root, true, below + [Entered(s, e)])
    else if EndsWell(Entered(s, e)) then Validator(root, true, below)
    else Dead(root)
  }

  /** What the top of the stack does with an event that all its parallel validators have received. */
  function Act(root: Schema, stack: seq<Context>, e: Event): Validator {
    if IsScalar(e) || e.StartObject? || e.StartArray? then
      if stack == [] then Begin(root, [], root, e)
      else
        var below, top := stack[..|stack| - 1], stack[|stack| - 1];
        if PlaceElement(top).None? || NextSchema(top).None? then Dead(root)
        else Begin(root, below + [PlaceElement(top).value], NextSchema(top).value, e)
    else if stack == [] then Dead(root)
    else
      var below, top := stack[..|stack| - 1], stack[|stack| - 1];
      match e
      case Key(name) =>
        if SeeKey(top, name).None? then Dead(root) else Validator(root, true, below + [SeeKey(top, name).value])
      case _ =>
        if Closes(top, e) && EndsWell(top) then Validator(root, true, below) else Dead(root)
  }

  function Step(v: Validator, e: Event): Validator
    decreases v
  {
    if !v.valid then Dead(v.root) else Act(v.root, Dispatch(v.stack, e), e)
  }

  /** Sends an event to the parallel validators of every context. */
  function Dispatch(cs: seq<Context>, e: Event): (r: seq<Context>)
    ensures |r| == |cs|
    decreases cs
  {
    seq(|cs|, i requires 0 <= i < |cs| => cs[i].(validators := StepAll(cs[i].validators, e)))
  }

  function StepAll(vs: seq<Validator>, e: Event): (r: seq<Validator>)
    ensures |r| == |vs|
    decreases vs
  {
    seq(|vs|, i requires 0 <= i < |vs| => Step(vs[i], e))
  }

  function Run(v: Validator, es: seq<Event>): Validator
    decreases |es|
  {
    if es == [] then v else Run(Step(v, es[0]), es[1..])
  }
}
