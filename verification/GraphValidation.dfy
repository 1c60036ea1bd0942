/**
 The streaming validator on a graph of schemas: its contexts hold references, and it follows them where a value begins.
 It need not end. Where it does it decides what the graph means, with cycles and for trees of any depth.
 */
module GraphValidation {
  import opened Options
  import opened Json
  import opened Document
  import opened PointerAccess
  import opened SchemaCompile
  import opened Schema
  import opened Validation
  import opened SchemaGraph
  import opened SchemaCycles

  datatype GContext = GContext(
    ref: SchemaRef,
    validators: seq<GValidator>,
    inArray: bool,
    arrayElementIndex: nat,
    valueRef: Option<SchemaRef>,
    exist: seq<bool>)

  datatype GValidator = GValidator(root: SchemaRef, valid: bool, stack: seq<GContext>)

  function FreshAt(root: SchemaRef): GValidator {
    GValidator(root, true, [])
  }

  function DeadAt(root: SchemaRef): GValidator {
    GValidator(root, false, [])
  }

  // ------------------------------------------------------------ one schema of the graph

  function PropertySkeleton(g: Graph, p: GraphProperty): Property {
    Property(p.name, TYPELESS.(defaultValueLength := DefaultLength(g, p.ref)), p.required, p.declared)
  }

  /** The keywords of one schema: of the schemas it refers to only their number and the lengths of defaults. */
  function Skeleton(g: Graph, r: SchemaRef): Schema {
    var s := ShapeAt(g, r);
    s.scalar.(
      items := AnyItems, additionalItems := Allowed, additionalProperties := Allowed,
      properties := seq(|s.properties|, i requires 0 <= i < |s.properties| => PropertySkeleton(g, s.properties[i])),
      allOf := seq(|s.allOf|, i => TYPELESS), anyOf := seq(|s.anyOf|, i => TYPELESS),
      oneOf := seq(|s.oneOf|, i => TYPELESS), negated := if s.negated.Some? then Some(TYPELESS) else None)
  }

  function ItemAt(g: Graph, r: SchemaRef, i: nat): Option<SchemaRef> {
    ItemRef(ShapeAt(g, r), i)
  }

  function MemberAt(g: Graph, r: SchemaRef, name: Bytes): Option<SchemaRef> {
    MemberRef(ShapeAt(g, r), name)
  }

  function PropertyIndex(g: Graph, r: SchemaRef, name: Bytes): nat {
    FindGraphProperty(ShapeAt(g, r).properties, name)
  }

  // ------------------------------------------------------------ events

  predicate BeginsValue(e: Event) {
    IsScalar(e) || e.StartObject? || e.StartArray?
  }

  function PlaceElementAt(g: Graph, c: GContext): Option<GContext> {
    if !c.inArray then Some(c)
    else if ItemAt(g, c.ref, c.arrayElementIndex).None? then None
    else Some(c.(arrayElementIndex := c.arrayElementIndex + 1))
  }

  function NextRef(g: Graph, c: GContext): Option<SchemaRef> {
    if c.inArray then ItemAt(g, c.ref, c.arrayElementIndex) else c.valueRef
  }

  function SeeKeyAt(g: Graph, c: GContext, name: Bytes): Option<GContext> {
    var i := PropertyIndex(g, c.ref, name);
    match MemberAt(g, c.ref, name)
    case None => None
    case Some(ref) =>
      Some(c.(valueRef := if c.inArray then None else Some(ref),
              exist := if i < |c.exist| then c.exist[i := true] else c.exist))
  }

  /** The context without its validators, as far as its own keywords go. */
  function Plainly(g: Graph, c: GContext): Context {
    Context(Skeleton(g, c.ref), [], c.inArray, c.arrayElementIndex, None, c.exist)
  }

  function VerdictsAt(c: GContext): seq<bool> {
    seq(|c.validators|, i requires 0 <= i < |c.validators| => c.validators[i].valid)
  }

  predicate EndsWellAt(g: Graph, c: GContext) {
    |c.validators| == |Subs(Skeleton(g, c.ref))| && Combine(Skeleton(g, c.ref), VerdictsAt(c))
  }

  /** The context of a value that begins: a validator for each schema of the combining keywords has been given the
      first event. They may begin validators in turn, these others again, `fuel` deep; None if that is not enough. */
  function EnteredAt(g: Graph, fuel: nat, r: SchemaRef, e: Event): Option<GContext>
    decreases fuel, 0
  {
    var subs := SubRefs(g, r);
    if subs != [] && fuel == 0 then None
    else
      match Sequenced(if subs == [] then [] else AllBegin(g, fuel - 1, subs, e))
      case None => None
      case Some(vs) => Some(ContextWith(Skeleton(g, r), r, vs, e))
  }

  function ContextWith(s: Schema, r: SchemaRef, vs: seq<GValidator>, e: Event): GContext {
    GContext(r, vs, e.StartArray?, 0, None, if e.StartObject? && HasRequired(s) then seq(|s.properties|, i => false) else [])
  }

  function AllBegin(g: Graph, fuel: nat, subs: seq<SchemaRef>, e: Event): (vs: seq<Option<GValidator>>)
    ensures |vs| == |subs| && forall i :: 0 <= i < |subs| ==> vs[i] == BeginAt(g, fuel, subs[i], [], subs[i], e)
    decreases fuel, 2
  {
    seq(|subs|, i requires 0 <= i < |subs| => BeginAt(g, fuel, subs[i], [], subs[i], e))
  }

  function BeginAt(g: Graph, fuel: nat, root: SchemaRef, below: seq<GContext>, r: SchemaRef, e: Event): Option<GValidator>
    decreases fuel, 1
  {
    if !Admits(Skeleton(g, r), e) then Some(DeadAt(root))
    else match EnteredAt(g, fuel, r, e)
      case None => None
      case Some(c) =>
        if !IsScalar(e) then Some(GValidator(root, true, below + [c]))
        else if EndsWellAt(g, c) then Some(GValidator(root, true, below))
        else Some(DeadAt(root))
  }

  function ActAt(g: Graph, fuel: nat, root: SchemaRef, stack: seq<GContext>, e: Event): Option<GValidator> {
    if BeginsValue(e) then
      if stack == [] then BeginAt(g, fuel, root, [], root, e)
      else
        var below, top := stack[..|stack| - 1], stack[|stack| - 1];
        if PlaceElementAt(g, top).None? || NextRef(g, top).None? then Some(DeadAt(root))
        else BeginAt(g, fuel, root, below + [PlaceElementAt(g, top).value], NextRef(g, top).value, e)
    else if stack == [] then Some(DeadAt(root))
    else
      var below, top := stack[..|stack| - 1], stack[|stack| - 1];
      match e
      case Key(name) =>
        if SeeKeyAt(g, top, name).None? then Some(DeadAt(root))
        else Some(GValidator(root, true, below + [SeeKeyAt(g, top, name).value]))
      case _ =>
        if Closes(Plainly(g, top), e) && EndsWellAt(g, top) then Some(GValidator(root, true, below)) else Some(DeadAt(root))
  }

  /** One event; None if validators that it begins nest more than `fuel` deep. */
  function StepAt(g: Graph, fuel: nat, v: GValidator, e: Event): Option<GValidator>
    decreases v
  {
    if !v.valid then Some(DeadAt(v.root))
    else match DispatchAt(g, fuel, v.stack, e)
      case None => None
      case Some(stack) => ActAt(g, fuel, v.root, stack, e)
  }

  function DispatchAt(g: Graph, fuel: nat, cs: seq<GContext>, e: Event): (r: Option<seq<GContext>>)
    ensures r.Some? ==> |r.value| == |cs|
    decreases cs
  {
    if exists i :: 0 <= i < |cs| && StepAllAt(g, fuel, cs[i].validators, e).None? then None
    else Some(seq(|cs|, i requires 0 <= i < |cs| => cs[i].(validators := StepAllAt(g, fuel, cs[i].validators, e).value)))
  }

  function StepAllAt(g: Graph, fuel: nat, vs: seq<GValidator>, e: Event): (r: Option<seq<GValidator>>)
    ensures r.Some? ==> |r.value| == |vs|
    decreases vs
  {
    Sequenced(seq(|vs|, i requires 0 <= i < |vs| => StepAt(g, fuel, vs[i], e)))
  }

  /** All of them, if all are there. */
  function Sequenced(vs: seq<Option<GValidator>>): (r: Option<seq<GValidator>>)
    ensures r.None? <==> exists i :: 0 <= i < |vs| && vs[i].None?
    ensures r.Some? ==> |r.value| == |vs| && forall i :: 0 <= i < |vs| ==> vs[i] == Some(r.value[i])
  {
    if exists i :: 0 <= i < |vs| && vs[i].None? then None else Some(seq(|vs|, i requires 0 <= i < |vs| => vs[i].value))
  }

  function RunAt(g: Graph, fuel: nat, v: GValidator, es: seq<Event>): Option<GValidator>
    decreases |es|
  {
    if es == [] then Some(v)
    else match StepAt(g, fuel, v, es[0])
      case None => None
      case Some(next) => RunAt(g, fuel, next, es[1..])
  }

  // ------------------------------------------------------------ seen as a validator on unrolled schemas

  function Less(d: nat, i: nat): nat {
    if i <= d then d - i else 0
  }

  ghost function ContextSeen(g: Graph, rank: Rank, c: GContext, d: nat): Context
    requires Guarded(g, rank)
    decreases c
  {
    Context(Unrolled(g, rank, c.ref, d), AllSeen(g, rank, c.validators, d), c.inArray, c.arrayElementIndex,
            if c.valueRef.Some? then Some(Below(g, rank, c.valueRef.value, d)) else None, c.exist)
  }

  ghost function AllSeen(g: Graph, rank: Rank, vs: seq<GValidator>, d: nat): (r: seq<Validator>)
    requires Guarded(g, rank)
    ensures |r| == |vs|
    decreases vs
  {
    seq(|vs|, k requires 0 <= k < |vs| => Seen(g, rank, vs[k], d))
  }

  /** Each context is one level deeper than the one below it. */
  ghost function StackSeen(g: Graph, rank: Rank, cs: seq<GContext>, d: nat): (r: seq<Context>)
    requires Guarded(g, rank)
    ensures |r| == |cs|
    decreases cs
  {
    seq(|cs|, i requires 0 <= i < |cs| => ContextSeen(g, rank, cs[i], Less(d, i)))
  }

  ghost function Seen(g: Graph, rank: Rank, v: GValidator, d: nat): Validator
    requires Guarded(g, rank)
    decreases v
  {
    Validator(Unrolled(g, rank, v.root, d), v.valid, StackSeen(g, rank, v.stack, d))
  }

  /** No stack is higher than `n`, counted from where its validator began. */
  predicate Limited(v: GValidator, n: nat)
    decreases v
  {
    |v.stack| <= n && StackLimited(v.stack, n)
  }

  predicate StackLimited(cs: seq<GContext>, n: nat)
    decreases cs
  {
    forall i :: 0 <= i < |cs| ==> ValidatorsLimited(cs[i].validators, Less(n, i))
  }

  predicate ValidatorsLimited(vs: seq<GValidator>, n: nat)
    decreases vs
  {
    forall k :: 0 <= k < |vs| ==> Limited(vs[k], n)
  }

  // ------------------------------------------------------------ one schema is seen right

  lemma {:induction false} SameKeywords(g: Graph, rank: Rank, r: SchemaRef, e: Event, d: nat)
    requires Guarded(g, rank)
    ensures var s, u := Skeleton(g, r), Unrolled(g, rank, r, d);
            && Admits(s, e) == Admits(u, e)
            && |s.properties| == |u.properties| && HasRequired(s) == HasRequired(u)
            && |s.allOf| == |u.allOf| && |s.anyOf| == |u.anyOf| && |s.oneOf| == |u.oneOf| && s.negated.Some? == u.negated.Some?
  {
    hide Guarded, LengthHolds, CheckInt, CheckUint, Below, Beside, BelowItems, BelowAdditional;
    var s, u := Skeleton(g, r), Unrolled(g, rank, r, d);
    SameScalars(s, u, e);
    forall k | 0 <= k < |s.properties| ensures s.properties[k].required == u.properties[k].required {
      assert r.At?;
    }
  }

  lemma {:induction false} SameScalars(s: Schema, u: Schema, e: Event)
    requires s.types == u.types && s.floating == u.floating && s.minLength == u.minLength && s.maxLength == u.maxLength
    requires s.minimum == u.minimum && s.exclusiveMinimum == u.exclusiveMinimum
    requires s.maximum == u.maximum && s.exclusiveMaximum == u.exclusiveMaximum
    ensures Admits(s, e) == Admits(u, e)
  {
  }

  lemma {:induction false} SameCombine(s: Schema, u: Schema, valid: seq<bool>)
    requires |s.allOf| == |u.allOf| && |s.anyOf| == |u.anyOf| && |s.oneOf| == |u.oneOf| && s.negated.Some? == u.negated.Some?
    ensures |Subs(s)| == |Subs(u)|
    ensures |valid| == |Subs(s)| ==> Combine(s, valid) == Combine(u, valid)
  {
    hide AllValid, AnyValid, OneValid;
  }

  lemma {:induction false} SubsUnrolled(g: Graph, rank: Rank, r: SchemaRef, d: nat)
    requires Guarded(g, rank)
    ensures |Subs(Unrolled(g, rank, r, d))| == |SubRefs(g, r)|
    ensures forall i :: 0 <= i < |SubRefs(g, r)| ==> Subs(Unrolled(g, rank, r, d))[i] == Unrolled(g, rank, SubRefs(g, r)[i], d)
  {
    hide Guarded, Unrolled, Beside;
    if r.At? {
      assert LeadsDown(g, rank, r.loc) by { GuardedThere(g, rank, r.loc); }
      var s, n, u := g(r.loc), 1 + rank(r.loc), Unrolled(g, rank, r, d);
      CombiningUnrolled(g, rank, r.loc, d);
      BesideAt(g, rank, s.allOf, n, d);
      BesideAt(g, rank, s.anyOf, n, d);
      BesideAt(g, rank, s.oneOf, n, d);
      SubRefsAt(g, r);
    } else {
      assert Unrolled(g, rank, r, d) == TYPELESS by { TypelessUnrolled(g, rank, r, d); }
    }
  }

  lemma {:induction false} TypelessUnrolled(g: Graph, rank: Rank, r: SchemaRef, d: nat)
    requires Guarded(g, rank) && r.Typeless?
    ensures Unrolled(g, rank, r, d) == TYPELESS
  {
  }

  lemma {:induction false} CombiningUnrolled(g: Graph, rank: Rank, loc: Loc, d: nat)
    requires Guarded(g, rank) && LeadsDown(g, rank, loc)
    ensures var s, n, u := g(loc), 1 + rank(loc), Unrolled(g, rank, At(loc), d);
            && u.allOf == Beside(g, rank, s.allOf, n, d) && u.anyOf == Beside(g, rank, s.anyOf, n, d)
            && u.oneOf == Beside(g, rank, s.oneOf, n, d)
            && u.negated == if s.negated.Some? then Some(Unrolled(g, rank, s.negated.value, d)) else None
  {
    hide Guarded, Below, Beside, BelowItems, BelowAdditional, BelowProperties;
  }

  lemma {:induction false} BesideAt(g: Graph, rank: Rank, refs: seq<SchemaRef>, n: nat, d: nat)
    requires Guarded(g, rank) && AllBelow(rank, refs, n)
    ensures forall i :: 0 <= i < |refs| ==> Beside(g, rank, refs, n, d)[i] == Unrolled(g, rank, refs[i], d)
  {
    hide Guarded, Unrolled;
  }

  lemma {:induction false} SubRefsAt(g: Graph, r: SchemaRef)
    requires r.At?
    ensures var s := g(r.loc);
            var a, b, c := |s.allOf|, |s.allOf| + |s.anyOf|, |s.allOf| + |s.anyOf| + |s.oneOf|;
            forall i :: 0 <= i < |SubRefs(g, r)| ==>
              SubRefs(g, r)[i] == if i < a then s.allOf[i] else if i < b then s.anyOf[i - a] else if i < c then s.oneOf[i - b]
                                  else s.negated.value
  {
  }

  lemma {:induction false} ItemSeen(g: Graph, rank: Rank, r: SchemaRef, i: nat, d: nat)
    requires Guarded(g, rank)
    ensures ItemSchema(Unrolled(g, rank, r, d), i)
            == match ItemAt(g, r, i) case None => None case Some(ref) => Some(Below(g, rank, ref, d))
  {
    hide Guarded;
    BelowTypeless(g, rank, d);
    if r.At? {
      ItemBelow(g, rank, r.loc, i, d);
    }
  }

  lemma {:induction false} MemberSeen(g: Graph, rank: Rank, r: SchemaRef, name: Bytes, d: nat)
    requires Guarded(g, rank)
    ensures MemberSchema(Unrolled(g, rank, r, d), name)
            == match MemberAt(g, r, name) case None => None case Some(ref) => Some(Below(g, rank, ref, d))
    ensures FindProperty(Unrolled(g, rank, r, d).properties, name) == PropertyIndex(g, r, name)
  {
    hide Guarded;
    BelowTypeless(g, rank, d);
    if r.At? {
      MemberBelow(g, rank, r.loc, name, d);
      SameIndex(g, rank, g(r.loc).properties, d, name);
    }
  }

  lemma {:induction false} ClosesSeen(g: Graph, rank: Rank, c: GContext, e: Event, d: nat)
    requires Guarded(g, rank) && d > 0
    ensures Closes(Plainly(g, c), e) == Closes(ContextSeen(g, rank, c, d), e)
  {
    hide Guarded, Below, Beside, BelowItems, BelowAdditional;
    var s, u := Skeleton(g, c.ref), Unrolled(g, rank, c.ref, d);
    forall k | 0 <= k < |s.properties|
      ensures s.properties[k].required == u.properties[k].required
      ensures s.properties[k].schema.defaultValueLength == u.properties[k].schema.defaultValueLength
    {
      DefaultBelow(g, rank, g(c.ref.loc).properties[k].ref, d);
    }
    SameKeywords(g, rank, c.ref, e, d);
    SameEnds(Plainly(g, c), ContextSeen(g, rank, c, d), e);
  }

  lemma {:induction false} SameEnds(a: Context, b: Context, e: Event)
    requires a.exist == b.exist && |a.schema.properties| == |b.schema.properties|
    requires a.schema.minItems == b.schema.minItems && a.schema.maxItems == b.schema.maxItems
    requires a.schema.minProperties == b.schema.minProperties && a.schema.maxProperties == b.schema.maxProperties
    requires forall k :: 0 <= k < |a.schema.properties| ==>
               && a.schema.properties[k].required == b.schema.properties[k].required
               && a.schema.properties[k].schema.defaultValueLength == b.schema.properties[k].schema.defaultValueLength
    ensures Closes(a, e) == Closes(b, e)
  {
  }

  // ------------------------------------------------------------ contexts are seen right

  lemma {:induction false} PlaceSeen(g: Graph, rank: Rank, c: GContext, d: nat)
    requires Guarded(g, rank)
    ensures PlaceElement(ContextSeen(g, rank, c, d))
            == match PlaceElementAt(g, c) case None => None case Some(p) => Some(ContextSeen(g, rank, p, d))
    ensures NextSchema(ContextSeen(g, rank, c, d))
            == match NextRef(g, c) case None => None case Some(ref) => Some(Below(g, rank, ref, d))
  {
    hide Guarded, Unrolled, Below, ItemSchema, ItemAt, AllSeen;
    ItemSeen(g, rank, c.ref, c.arrayElementIndex, d);
  }

  lemma {:induction false} KeySeen(g: Graph, rank: Rank, c: GContext, name: Bytes, d: nat)
    requires Guarded(g, rank)
    ensures SeeKey(ContextSeen(g, rank, c, d), name)
            == match SeeKeyAt(g, c, name) case None => None case Some(p) => Some(ContextSeen(g, rank, p, d))
  {
    hide Guarded, Unrolled, Below, MemberSchema, MemberAt, FindProperty, PropertyIndex, AllSeen;
    MemberSeen(g, rank, c.ref, name, d);
  }

  lemma {:induction false} EndSeen(g: Graph, rank: Rank, c: GContext, d: nat)
    requires Guarded(g, rank)
    ensures EndsWell(ContextSeen(g, rank, c, d)) == EndsWellAt(g, c)
  {
    hide Guarded, Unrolled, Below, Combine, Skeleton, Subs;
    SameKeywords(g, rank, c.ref, Null, d);
    SameCombine(Skeleton(g, c.ref), Unrolled(g, rank, c.ref, d), VerdictsAt(c));
    forall k | 0 <= k < |c.validators| ensures AllSeen(g, rank, c.validators, d)[k].valid == c.validators[k].valid {
      assert AllSeen(g, rank, c.validators, d)[k] == Seen(g, rank, c.validators[k], d);
    }
    assert Verdicts(ContextSeen(g, rank, c, d)) == VerdictsAt(c);
  }

  lemma {:induction false} BeginSeen(g: Graph, rank: Rank, fuel: nat, root: SchemaRef, below: seq<GContext>, r: SchemaRef, e: Event,
                                     d: nat)
    requires Guarded(g, rank) && BeginAt(g, fuel, root, below, r, e).Some?
    ensures Seen(g, rank, BeginAt(g, fuel, root, below, r, e).value, d)
            == Begin(Unrolled(g, rank, root, d), StackSeen(g, rank, below, d), Unrolled(g, rank, r, Less(d, |below|)), e)
    decreases fuel, 1
  {
    hide Guarded, Unrolled, Entered, EnteredAt, EndsWell, EndsWellAt, Admits, Skeleton, ContextSeen;
    var dd := Less(d, |below|);
    SameKeywords(g, rank, r, e, dd);
    if Admits(Skeleton(g, r), e) {
      EnteredSeen(g, rank, fuel, r, e, dd);
      var c := EnteredAt(g, fuel, r, e).value;
      EndSeen(g, rank, c, dd);
      StackSeenJoined(g, rank, below, c, d);
    }
    assert StackSeen(g, rank, [], d) == [];
  }

  lemma {:induction false} StackSeenJoined(g: Graph, rank: Rank, below: seq<GContext>, c: GContext, d: nat)
    requires Guarded(g, rank)
    ensures StackSeen(g, rank, below + [c], d) == StackSeen(g, rank, below, d) + [ContextSeen(g, rank, c, Less(d, |below|))]
  {
    hide Guarded, ContextSeen;
  }

  lemma {:induction false} EnteredSeen(g: Graph, rank: Rank, fuel: nat, r: SchemaRef, e: Event, d: nat)
    requires Guarded(g, rank) && EnteredAt(g, fuel, r, e).Some?
    ensures ContextSeen(g, rank, EnteredAt(g, fuel, r, e).value, d) == Entered(Unrolled(g, rank, r, d), e)
    decreases fuel, 0
  {
    hide Guarded, Unrolled, Begin, BeginAt, Skeleton, SubRefs, Subs, Seen, Below;
    var c, u, refs := EnteredAt(g, fuel, r, e).value, Unrolled(g, rank, r, d), SubRefs(g, r);
    SubsUnrolled(g, rank, r, d);
    SameKeywords(g, rank, r, e, d);
    forall i | 0 <= i < |refs| ensures Seen(g, rank, c.validators[i], d) == Entered(u, e).validators[i] {
      assert BeginAt(g, fuel - 1, refs[i], [], refs[i], e) == Some(c.validators[i]);
      BeginSeen(g, rank, fuel - 1, refs[i], [], refs[i], e, d);
      assert StackSeen(g, rank, [], d) == [];
    }
    assert AllSeen(g, rank, c.validators, d) == Entered(u, e).validators;
  }

  // ------------------------------------------------------------ steps are seen right

  lemma {:induction false} BelowIsUnrolled(g: Graph, rank: Rank, ref: SchemaRef, d: nat)
    requires Guarded(g, rank) && d > 0
    ensures Below(g, rank, ref, d) == Unrolled(g, rank, ref, d - 1)
  {
  }

  lemma {:induction false} TopSeen(g: Graph, rank: Rank, stack: seq<GContext>, d: nat)
    requires Guarded(g, rank) && stack != []
    ensures var seen, n := StackSeen(g, rank, stack, d), |stack| - 1;
            && seen[..n] == StackSeen(g, rank, stack[..n], d)
            && seen[n] == ContextSeen(g, rank, stack[n], Less(d, n))
  {
    hide Guarded, ContextSeen;
  }

  lemma {:induction false} ActSeen(g: Graph, rank: Rank, fuel: nat, root: SchemaRef, stack: seq<GContext>, e: Event, d: nat)
    requires Guarded(g, rank) && |stack| <= d && ActAt(g, fuel, root, stack, e).Some?
    ensures Seen(g, rank, ActAt(g, fuel, root, stack, e).value, d) == Act(Unrolled(g, rank, root, d), StackSeen(g, rank, stack, d), e)
  {
    hide Guarded, Unrolled, Begin, BeginAt, ContextSeen;
    if stack == [] {
      assert StackSeen(g, rank, [], d) == [];
      if BeginsValue(e) {
        BeginSeen(g, rank, fuel, root, [], root, e, d);
      }
    } else if BeginsValue(e) {
      ValueSeen(g, rank, fuel, root, stack, e, d);
    } else if e.Key? {
      NameSeen(g, rank, fuel, root, stack, e, d);
    } else {
      BracketSeen(g, rank, fuel, root, stack, e, d);
    }
  }

  lemma {:induction false} ValueSeen(g: Graph, rank: Rank, fuel: nat, root: SchemaRef, stack: seq<GContext>, e: Event, d: nat)
    requires Guarded(g, rank) && 0 < |stack| <= d && ActAt(g, fuel, root, stack, e).Some? && BeginsValue(e)
    ensures Seen(g, rank, ActAt(g, fuel, root, stack, e).value, d) == Act(Unrolled(g, rank, root, d), StackSeen(g, rank, stack, d), e)
  {
    hide Guarded, Unrolled, Begin, BeginAt, ContextSeen, Below, PlaceElement, PlaceElementAt, NextSchema, NextRef;
    assert StackSeen(g, rank, [], d) == [];
    var n := |stack| - 1;
    var below, top, dd: nat := stack[..n], stack[n], d - n;
    TopSeen(g, rank, stack, d);
    PlaceSeen(g, rank, top, dd);
    if PlaceElementAt(g, top).Some? && NextRef(g, top).Some? {
      var p, ref := PlaceElementAt(g, top).value, NextRef(g, top).value;
      BelowIsUnrolled(g, rank, ref, dd);
      BeginSeen(g, rank, fuel, root, below + [p], ref, e, d);
      StackSeenJoined(g, rank, below, p, d);
    }
  }

  lemma {:induction false} NameSeen(g: Graph, rank: Rank, fuel: nat, root: SchemaRef, stack: seq<GContext>, e: Event, d: nat)
    requires Guarded(g, rank) && 0 < |stack| <= d && ActAt(g, fuel, root, stack, e).Some? && e.Key?
    ensures Seen(g, rank, ActAt(g, fuel, root, stack, e).value, d) == Act(Unrolled(g, rank, root, d), StackSeen(g, rank, stack, d), e)
  {
    hide Guarded, Unrolled, ContextSeen, SeeKey, SeeKeyAt;
    assert StackSeen(g, rank, [], d) == [];
    var n := |stack| - 1;
    TopSeen(g, rank, stack, d);
    KeySeen(g, rank, stack[n], e.s, d - n);
    if SeeKeyAt(g, stack[n], e.s).Some? {
      StackSeenJoined(g, rank, stack[..n], SeeKeyAt(g, stack[n], e.s).value, d);
    }
  }

  lemma {:induction false} BracketSeen(g: Graph, rank: Rank, fuel: nat, root: SchemaRef, stack: seq<GContext>, e: Event, d: nat)
    requires Guarded(g, rank) && 0 < |stack| <= d && ActAt(g, fuel, root, stack, e).Some? && !BeginsValue(e) && !e.Key?
    ensures Seen(g, rank, ActAt(g, fuel, root, stack, e).value, d) == Act(Unrolled(g, rank, root, d), StackSeen(g, rank, stack, d), e)
  {
    hide Guarded, Unrolled, ContextSeen, EndsWell, EndsWellAt, Closes, Plainly;
    assert StackSeen(g, rank, [], d) == [];
    var n := |stack| - 1;
    TopSeen(g, rank, stack, d);
    EndSeen(g, rank, stack[n], d - n);
    ClosesSeen(g, rank, stack[n], e, d - n);
  }

  /** A step on references is seen as a step on unrolled schemas, while the stacks are not higher than those are deep. */
  lemma {:induction false} StepSeen(g: Graph, rank: Rank, fuel: nat, v: GValidator, e: Event, n: nat, d: nat)
    requires Guarded(g, rank) && Limited(v, n) && n <= d && StepAt(g, fuel, v, e).Some?
    ensures Seen(g, rank, StepAt(g, fuel, v, e).value, d) == Step(Seen(g, rank, v, d), e)
    decreases v
  {
    hide Guarded, Unrolled, ActAt, Act;
    assert StackSeen(g, rank, [], d) == [];
    if v.valid {
      DispatchSeen(g, rank, fuel, v.stack, e, n, d);
      ActSeen(g, rank, fuel, v.root, DispatchAt(g, fuel, v.stack, e).value, e, d);
    }
  }

  lemma {:induction false} DispatchSeen(g: Graph, rank: Rank, fuel: nat, cs: seq<GContext>, e: Event, n: nat, d: nat)
    requires Guarded(g, rank) && StackLimited(cs, n) && n <= d && DispatchAt(g, fuel, cs, e).Some?
    ensures StackSeen(g, rank, DispatchAt(g, fuel, cs, e).value, d) == Dispatch(StackSeen(g, rank, cs, d), e)
    decreases cs
  {
    hide Guarded, Unrolled, Below, StepAllAt, StepAll, AllSeen, ValidatorsLimited;
    forall i | 0 <= i < |cs|
      ensures StackSeen(g, rank, DispatchAt(g, fuel, cs, e).value, d)[i] == Dispatch(StackSeen(g, rank, cs, d), e)[i]
    {
      AllStepsSeen(g, rank, fuel, cs[i].validators, e, Less(n, i), Less(d, i));
    }
  }

  lemma {:induction false} AllStepsSeen(g: Graph, rank: Rank, fuel: nat, vs: seq<GValidator>, e: Event, n: nat, d: nat)
    requires Guarded(g, rank) && ValidatorsLimited(vs, n) && n <= d && StepAllAt(g, fuel, vs, e).Some?
    ensures AllSeen(g, rank, StepAllAt(g, fuel, vs, e).value, d) == StepAll(AllSeen(g, rank, vs, d), e)
    decreases vs
  {
    hide Guarded, StepAt, Step, Seen, Limited;
    var next := StepAllAt(g, fuel, vs, e).value;
    forall k | 0 <= k < |vs| ensures Seen(g, rank, next[k], d) == Step(Seen(g, rank, vs[k], d), e) {
      assert StepAt(g, fuel, vs[k], e) == Some(next[k]);
      StepSeen(g, rank, fuel, vs[k], e, n, d);
    }
  }

  // ------------------------------------------------------------ stacks grow by one at most

  lemma {:induction false} LimitedMore(v: GValidator, m: nat, n: nat)
    requires Limited(v, m) && m <= n
    ensures Limited(v, n)
    decreases v
  {
    forall i | 0 <= i < |v.stack| ensures ValidatorsLimited(v.stack[i].validators, Less(n, i)) {
      AllLimitedMore(v.stack[i].validators, Less(m, i), Less(n, i));
    }
  }

  lemma {:induction false} AllLimitedMore(vs: seq<GValidator>, m: nat, n: nat)
    requires ValidatorsLimited(vs, m) && m <= n
    ensures ValidatorsLimited(vs, n)
    decreases vs
  {
    forall k | 0 <= k < |vs| ensures Limited(vs[k], n) {
      LimitedMore(vs[k], m, n);
    }
  }

  lemma {:induction false} EnteredLimited(g: Graph, fuel: nat, r: SchemaRef, e: Event)
    requires EnteredAt(g, fuel, r, e).Some?
    ensures ValidatorsLimited(EnteredAt(g, fuel, r, e).value.validators, 1)
    decreases fuel, 0
  {
    hide Skeleton, SubRefs, Limited, HasRequired, AllBegin, Sequenced, BeginAt;
    var refs, vs := SubRefs(g, r), EnteredAt(g, fuel, r, e).value.validators;
    forall i | 0 <= i < |refs| ensures Limited(vs[i], 1) {
      assert BeginAt(g, fuel - 1, refs[i], [], refs[i], e) == Some(vs[i]);
      NothingLimited(1);
      BeginLimited(g, fuel - 1, refs[i], [], refs[i], e, 0);
    }
  }

  lemma {:induction false} NothingLimited(n: nat)
    ensures StackLimited([], n)
  {
  }

  lemma {:induction false} BeginLimited(g: Graph, fuel: nat, root: SchemaRef, below: seq<GContext>, r: SchemaRef, e: Event, n: nat)
    requires |below| <= n && StackLimited(below, n + 1) && BeginAt(g, fuel, root, below, r, e).Some?
    ensures Limited(BeginAt(g, fuel, root, below, r, e).value, n + 1)
    decreases fuel, 1
  {
    hide Skeleton, EnteredAt, ValidatorsLimited, EndsWellAt, Admits;
    NothingLimited(n + 1);
    if Admits(Skeleton(g, r), e) {
      var c := EnteredAt(g, fuel, r, e).value;
      EnteredLimited(g, fuel, r, e);
      AllLimitedMore(c.validators, 1, Less(n + 1, |below|));
      var stack := below + [c];
      assert forall i :: 0 <= i < |stack| ==> ValidatorsLimited(stack[i].validators, Less(n + 1, i));
      assert StackLimited(stack, n + 1);
    }
  }

  lemma {:induction false} StepLimited(g: Graph, fuel: nat, v: GValidator, e: Event, n: nat)
    requires Limited(v, n) && StepAt(g, fuel, v, e).Some?
    ensures Limited(StepAt(g, fuel, v, e).value, n + 1)
    decreases v
  {
    hide ActAt, ValidatorsLimited, StepAllAt;
    if v.valid {
      var stack := DispatchAt(g, fuel, v.stack, e).value;
      forall i | 0 <= i < |stack| ensures ValidatorsLimited(stack[i].validators, Less(n + 1, i)) {
        AllStepsLimited(g, fuel, v.stack[i].validators, e, Less(n, i));
      }
      ActLimited(g, fuel, v.root, stack, e, n);
    } else {
      assert StackLimited([], n + 1);
    }
  }

  lemma {:induction false} AllStepsLimited(g: Graph, fuel: nat, vs: seq<GValidator>, e: Event, n: nat)
    requires ValidatorsLimited(vs, n) && StepAllAt(g, fuel, vs, e).Some?
    ensures ValidatorsLimited(StepAllAt(g, fuel, vs, e).value, n + 1)
    decreases vs
  {
    hide StepAt, Limited;
    var next := StepAllAt(g, fuel, vs, e).value;
    forall k | 0 <= k < |vs| ensures Limited(next[k], n + 1) {
      assert StepAt(g, fuel, vs[k], e) == Some(next[k]);
      StepLimited(g, fuel, vs[k], e, n);
    }
  }

  lemma {:induction false} ActLimited(g: Graph, fuel: nat, root: SchemaRef, stack: seq<GContext>, e: Event, n: nat)
    requires |stack| <= n && StackLimited(stack, n + 1) && ActAt(g, fuel, root, stack, e).Some?
    ensures Limited(ActAt(g, fuel, root, stack, e).value, n + 1)
  {
    hide BeginAt, EndsWellAt, Closes, Plainly, NextRef, ValidatorsLimited, MemberAt, PropertyIndex, ItemAt;
    assert StackLimited([], n + 1);
    if stack == [] {
      if BeginsValue(e) {
        BeginLimited(g, fuel, root, [], root, e, n);
      }
    } else {
      var k := |stack| - 1;
      var below, top := stack[..k], stack[k];
      assert StackLimited(below, n + 1);
      if PlaceElementAt(g, top).Some? {
        TopLimited(below, top, PlaceElementAt(g, top).value, n);
        if BeginsValue(e) && NextRef(g, top).Some? {
          BeginLimited(g, fuel, root, below + [PlaceElementAt(g, top).value], NextRef(g, top).value, e, n);
        }
      }
      if e.Key? && SeeKeyAt(g, top, e.s).Some? {
        TopLimited(below, top, SeeKeyAt(g, top, e.s).value, n);
      }
    }
  }

  /** Another context with the same validators on top. */
  lemma {:induction false} TopLimited(below: seq<GContext>, top: GContext, other: GContext, n: nat)
    requires StackLimited(below, n + 1) && ValidatorsLimited(top.validators, Less(n + 1, |below|)) && other.validators == top.validators
    ensures StackLimited(below + [other], n + 1)
  {
    hide ValidatorsLimited;
    var stack := below + [other];
    assert forall i :: 0 <= i < |stack| ==> ValidatorsLimited(stack[i].validators, Less(n + 1, i));
  }

  // ------------------------------------------------------------ whether an event ends

  /** The graph as an event sees it: a schema that does not admit the event begins no validators for it. */
  function Admitting(g: Graph, e: Event): Graph {
    loc => if Admits(Skeleton(g, At(loc)), e) then g(loc)
           else g(loc).(allOf := [], anyOf := [], oneOf := [], negated := None)
  }

  lemma {:induction false} SubsAdmitting(g: Graph, e: Event, r: SchemaRef)
    ensures SubRefs(Admitting(g, e), r) == if r.At? && Admits(Skeleton(g, r), e) then SubRefs(g, r) else []
  {
    hide Skeleton, Admits;
  }

  /** For one event the validators of a schema nest too deep for the program exactly when they nest that deep through
      schemas that admit the event. */
  lemma {:induction false} BeginEndsExactlyWhen(g: Graph, fuel: nat, root: SchemaRef, below: seq<GContext>, r: SchemaRef, e: Event)
    ensures BeginAt(g, fuel, root, below, r, e).None? <==> Nests(Admitting(g, e), r, fuel + 1)
    decreases fuel
  {
    hide Skeleton, Admits, Admitting, EndsWellAt, SubRefs;
    SubsAdmitting(g, e, r);
    assert r.Typeless? ==> SubRefs(g, r) == [] by { TypelessHasNone(g); }
    var subs := SubRefs(g, r);
    if Admits(Skeleton(g, r), e) && subs != [] {
      if fuel > 0 {
        var vs := AllBegin(g, fuel - 1, subs, e);
        forall i | 0 <= i < |subs| ensures vs[i].None? <==> Nests(Admitting(g, e), subs[i], fuel) {
          BeginEndsExactlyWhen(g, fuel - 1, subs[i], [], subs[i], e);
        }
      } else {
        assert Nests(Admitting(g, e), subs[0], 0);
      }
    }
  }

  /** However deep they may nest, the validators for the event are too deep. */
  ghost predicate NeverBegins(g: Graph, r: SchemaRef, e: Event) {
    forall fuel: nat :: BeginAt(g, fuel, r, [], r, e).None?
  }

  lemma {:induction false} NeverBeginsExactlyWhen(g: Graph, r: SchemaRef, e: Event)
    ensures NeverBegins(g, r, e) <==> !Ends(Admitting(g, e), r)
  {
    hide Admitting, BeginAt, Nests;
    var h := Admitting(g, e);
    if Ends(h, r) {
      var n: nat :| !Nests(h, r, n);
      if Nests(h, r, n + 1) {
        NestsLess(h, r, n, n + 1);
      }
      BeginEndsExactlyWhen(g, n, r, [], r, e);
      assert BeginAt(g, n, r, [], r, e).Some?;
    } else {
      forall fuel: nat ensures BeginAt(g, fuel, r, [], r, e).None? {
        BeginEndsExactlyWhen(g, fuel, r, [], r, e);
        assert Nests(h, r, fuel + 1);
      }
    }
  }

  lemma {:induction false} TypelessHasNone(g: Graph)
    ensures SubRefs(g, Typeless) == []
  {
  }

  lemma {:induction false} AdmittingNests(g: Graph, e: Event, r: SchemaRef, n: nat)
    requires Nests(Admitting(g, e), r, n)
    ensures Nests(g, r, n)
    decreases n
  {
    hide SubRefs, Admitting;
    if n > 0 {
      SubsAdmitting(g, e, r);
      var i :| 0 <= i < |SubRefs(g, r)| && Nests(Admitting(g, e), SubRefs(g, r)[i], n - 1);
      AdmittingNests(g, e, SubRefs(g, r)[i], n - 1);
    }
  }

  lemma {:induction false} BeginEnds(g: Graph, fuel: nat, root: SchemaRef, below: seq<GContext>, r: SchemaRef, e: Event)
    requires forall loc :: !Nests(g, At(loc), fuel + 1)
    ensures BeginAt(g, fuel, root, below, r, e).Some?
  {
    hide Admitting, SubRefs, BeginAt;
    BeginEndsExactlyWhen(g, fuel, root, below, r, e);
    if Nests(Admitting(g, e), r, fuel + 1) {
      AdmittingNests(g, e, r, fuel + 1);
      TypelessHasNone(g);
    }
  }

  lemma {:induction false} StepEnds(g: Graph, fuel: nat, v: GValidator, e: Event)
    requires forall loc :: !Nests(g, At(loc), fuel + 1)
    ensures StepAt(g, fuel, v, e).Some?
    decreases v
  {
    hide Nests, BeginAt, StepAllAt;
    if v.valid {
      forall i | 0 <= i < |v.stack| ensures StepAllAt(g, fuel, v.stack[i].validators, e).Some? {
        AllStepsEnd(g, fuel, v.stack[i].validators, e);
      }
      ActEnds(g, fuel, v.root, DispatchAt(g, fuel, v.stack, e).value, e);
    }
  }

  lemma {:induction false} AllStepsEnd(g: Graph, fuel: nat, vs: seq<GValidator>, e: Event)
    requires forall loc :: !Nests(g, At(loc), fuel + 1)
    ensures StepAllAt(g, fuel, vs, e).Some?
    decreases vs
  {
    hide Nests, StepAt;
    forall k | 0 <= k < |vs| ensures StepAt(g, fuel, vs[k], e).Some? {
      StepEnds(g, fuel, vs[k], e);
    }
  }

  lemma {:induction false} ActEnds(g: Graph, fuel: nat, root: SchemaRef, stack: seq<GContext>, e: Event)
    requires forall loc :: !Nests(g, At(loc), fuel + 1)
    ensures ActAt(g, fuel, root, stack, e).Some?
  {
    hide Nests, BeginAt, EndsWellAt, PlaceElementAt, NextRef, SeeKeyAt, Closes, Plainly;
    forall below, r ensures BeginAt(g, fuel, root, below, r, e).Some? {
      BeginEnds(g, fuel, root, below, r, e);
    }
  }

  lemma {:induction false} RunEnds(g: Graph, fuel: nat, v: GValidator, es: seq<Event>)
    requires forall loc :: !Nests(g, At(loc), fuel + 1)
    ensures RunAt(g, fuel, v, es).Some?
    decreases |es|
  {
    hide Nests, StepAt;
    if es != [] {
      StepEnds(g, fuel, v, es[0]);
      RunEnds(g, fuel, StepAt(g, fuel, v, es[0]).value, es[1..]);
    }
  }

  // ------------------------------------------------------------ what is not reached is of no account

  ghost predicate ContextLive(c: GContext, live: iset<Loc>)
    decreases c
  {
    Alive(live, c.ref) && (c.valueRef.Some? ==> Alive(live, c.valueRef.value)) && AllLive(c.validators, live)
  }

  ghost predicate AllLive(vs: seq<GValidator>, live: iset<Loc>)
    decreases vs
  {
    forall k :: 0 <= k < |vs| ==> ValidatorLive(vs[k], live)
  }

  ghost predicate StackLive(cs: seq<GContext>, live: iset<Loc>)
    decreases cs
  {
    forall i :: 0 <= i < |cs| ==> ContextLive(cs[i], live)
  }

  /** All references that a validator holds are among these places. */
  ghost predicate ValidatorLive(v: GValidator, live: iset<Loc>)
    decreases v
  {
    Alive(live, v.root) && StackLive(v.stack, live)
  }

  lemma {:induction false} SkeletonSame(g: Graph, h: Graph, live: iset<Loc>, r: SchemaRef)
    requires Agree(g, h, live) && Alive(live, r)
    ensures Skeleton(g, r) == Skeleton(h, r) && SubRefs(g, r) == SubRefs(h, r)
    ensures forall i :: 0 <= i < |SubRefs(g, r)| ==> Alive(live, SubRefs(g, r)[i])
  {
    hide Closed, RefersTo;
    if r.At? {
      var s := g(r.loc);
      forall k | 0 <= k < |s.properties| ensures PropertySkeleton(g, s.properties[k]) == PropertySkeleton(h, s.properties[k]) {
        PropertyIsReferred(s, k);
        ReferredIsAlive(g, live, r.loc, s.properties[k].ref);
      }
      forall i | 0 <= i < |SubRefs(g, r)| ensures Alive(live, SubRefs(g, r)[i]) {
        SubsAreReferred(g, r.loc, SubRefs(g, r)[i]);
        ReferredIsAlive(g, live, r.loc, SubRefs(g, r)[i]);
      }
    }
  }

  lemma {:induction false} ItemSame(g: Graph, h: Graph, live: iset<Loc>, r: SchemaRef, i: nat)
    requires Agree(g, h, live) && Alive(live, r)
    ensures ItemAt(g, r, i) == ItemAt(h, r, i) && (ItemAt(g, r, i).Some? ==> Alive(live, ItemAt(g, r, i).value))
  {
    hide Closed, RefersTo;
    if r.At? && ItemRef(g(r.loc), i).Some? && ItemRef(g(r.loc), i).value.At? {
      ItemIsReferred(g(r.loc), i);
      ReferredIsAlive(g, live, r.loc, ItemRef(g(r.loc), i).value);
    }
  }

  lemma {:induction false} MemberSame(g: Graph, h: Graph, live: iset<Loc>, r: SchemaRef, name: Bytes)
    requires Agree(g, h, live) && Alive(live, r)
    ensures MemberAt(g, r, name) == MemberAt(h, r, name) && PropertyIndex(g, r, name) == PropertyIndex(h, r, name)
    ensures MemberAt(g, r, name).Some? ==> Alive(live, MemberAt(g, r, name).value)
  {
    hide Closed, RefersTo;
    if r.At? && MemberRef(g(r.loc), name).Some? && MemberRef(g(r.loc), name).value.At? {
      MemberIsReferred(g(r.loc), name);
      ReferredIsAlive(g, live, r.loc, MemberRef(g(r.loc), name).value);
    }
  }

  lemma {:induction false} EnteredSame(g: Graph, h: Graph, live: iset<Loc>, fuel: nat, r: SchemaRef, e: Event)
    requires Agree(g, h, live) && Alive(live, r)
    ensures EnteredAt(g, fuel, r, e) == EnteredAt(h, fuel, r, e)
    ensures EnteredAt(g, fuel, r, e).Some? ==> ContextLive(EnteredAt(g, fuel, r, e).value, live)
    decreases fuel, 0
  {
    hide Agree, Alive, Skeleton, SubRefs, BeginAt, AllLive, ContextLive, ContextWith, Sequenced, AllBegin;
    forall vs | AllLive(vs, live) ensures ContextLive(ContextWith(Skeleton(g, r), r, vs, e), live) {
      NewIsLive(Skeleton(g, r), r, vs, e, live);
    }
    SkeletonSame(g, h, live, r);
    if fuel > 0 {
      AllBeginSame(g, h, live, fuel - 1, SubRefs(g, r), e);
    } else {
      assert AllLive([], live) by { NothingLive(live); }
    }
  }

  lemma {:induction false} NewIsLive(s: Schema, r: SchemaRef, vs: seq<GValidator>, e: Event, live: iset<Loc>)
    requires Alive(live, r) && AllLive(vs, live)
    ensures ContextLive(ContextWith(s, r, vs, e), live)
  {
    hide Alive, AllLive, HasRequired;
  }

  lemma {:induction false} NothingLive(live: iset<Loc>)
    ensures AllLive([], live)
  {
  }

  lemma {:induction false} AllBeginSame(g: Graph, h: Graph, live: iset<Loc>, fuel: nat, subs: seq<SchemaRef>, e: Event)
    requires Agree(g, h, live) && forall i :: 0 <= i < |subs| ==> Alive(live, subs[i])
    ensures AllBegin(g, fuel, subs, e) == AllBegin(h, fuel, subs, e)
    ensures var vs := Sequenced(AllBegin(g, fuel, subs, e)); vs.Some? ==> AllLive(vs.value, live)
    decreases fuel, 2
  {
    hide Agree, Alive, BeginAt, ValidatorLive;
    forall i | 0 <= i < |subs|
      ensures BeginAt(g, fuel, subs[i], [], subs[i], e) == BeginAt(h, fuel, subs[i], [], subs[i], e)
      ensures BeginAt(g, fuel, subs[i], [], subs[i], e).Some? ==> ValidatorLive(BeginAt(g, fuel, subs[i], [], subs[i], e).value, live)
    {
      BeginSame(g, h, live, fuel, subs[i], [], subs[i], e);
    }
  }

  lemma {:induction false} BeginSame(g: Graph, h: Graph, live: iset<Loc>, fuel: nat, root: SchemaRef, below: seq<GContext>, r: SchemaRef,
                                     e: Event)
    requires Agree(g, h, live) && Alive(live, r) && Alive(live, root) && StackLive(below, live)
    ensures BeginAt(g, fuel, root, below, r, e) == BeginAt(h, fuel, root, below, r, e)
    ensures BeginAt(g, fuel, root, below, r, e).Some? ==> ValidatorLive(BeginAt(g, fuel, root, below, r, e).value, live)
    decreases fuel, 1
  {
    hide Agree, Alive, Skeleton, SubRefs, EnteredAt, ContextLive, StackLive, Admits, Combine, Subs;
    SkeletonSame(g, h, live, r);
    EnteredSame(g, h, live, fuel, r, e);
    assert StackLive([], live) by { NoStackLive(live); }
    if EnteredAt(g, fuel, r, e).Some? {
      EnteredKeeps(g, fuel, r, e);
      LiveJoined(below, EnteredAt(g, fuel, r, e).value, live);
    }
  }

  lemma {:induction false} NoStackLive(live: iset<Loc>)
    ensures StackLive([], live)
  {
  }

  lemma {:induction false} EnteredKeeps(g: Graph, fuel: nat, r: SchemaRef, e: Event)
    requires EnteredAt(g, fuel, r, e).Some?
    ensures EnteredAt(g, fuel, r, e).value.ref == r
  {
  }

  lemma {:induction false} ActSame(g: Graph, h: Graph, live: iset<Loc>, fuel: nat, root: SchemaRef, stack: seq<GContext>, e: Event)
    requires Agree(g, h, live) && Alive(live, root) && StackLive(stack, live)
    ensures ActAt(g, fuel, root, stack, e) == ActAt(h, fuel, root, stack, e)
    ensures ActAt(g, fuel, root, stack, e).Some? ==> ValidatorLive(ActAt(g, fuel, root, stack, e).value, live)
  {
    hide Agree, Alive, BeginAt, PlaceElementAt, NextRef, SeeKeyAt, Closes, Plainly, EndsWellAt, ContextLive;
    if stack == [] {
      BeginSame(g, h, live, fuel, root, [], root, e);
    } else {
      var below, top := stack[..|stack| - 1], stack[|stack| - 1];
      TopSame(g, h, live, top, e);
      if PlaceElementAt(g, top).Some? && NextRef(g, top).Some? {
        LiveJoined(below, PlaceElementAt(g, top).value, live);
        BeginSame(g, h, live, fuel, root, below + [PlaceElementAt(g, top).value], NextRef(g, top).value, e);
      }
      if e.Key? && SeeKeyAt(g, top, e.s).Some? {
        LiveJoined(below, SeeKeyAt(g, top, e.s).value, live);
      }
    }
  }

  lemma {:induction false} LiveJoined(below: seq<GContext>, c: GContext, live: iset<Loc>)
    requires StackLive(below, live) && ContextLive(c, live)
    ensures StackLive(below + [c], live)
  {
    hide ContextLive;
  }

  lemma {:induction false} TopSame(g: Graph, h: Graph, live: iset<Loc>, c: GContext, e: Event)
    requires Agree(g, h, live) && ContextLive(c, live)
    ensures PlaceElementAt(g, c) == PlaceElementAt(h, c) && NextRef(g, c) == NextRef(h, c)
    ensures Plainly(g, c) == Plainly(h, c) && EndsWellAt(g, c) == EndsWellAt(h, c)
    ensures PlaceElementAt(g, c).Some? ==> ContextLive(PlaceElementAt(g, c).value, live)
    ensures PlaceElementAt(g, c).Some? && NextRef(g, c).Some? ==> Alive(live, NextRef(g, c).value)
    ensures e.Key? ==> SeeKeyAt(g, c, e.s) == SeeKeyAt(h, c, e.s)
    ensures e.Key? && SeeKeyAt(g, c, e.s).Some? ==> ContextLive(SeeKeyAt(g, c, e.s).value, live)
  {
    hide Agree, Alive, Skeleton, ItemAt, MemberAt, PropertyIndex, Combine, Subs, AllLive;
    SkeletonSame(g, h, live, c.ref);
    ItemSame(g, h, live, c.ref, c.arrayElementIndex);
    if e.Key? {
      MemberSame(g, h, live, c.ref, e.s);
    }
  }

  /** A step comes to the same on two graphs that agree where the validator can come, and stays there. */
  lemma {:induction false} StepSame(g: Graph, h: Graph, live: iset<Loc>, fuel: nat, v: GValidator, e: Event)
    requires Agree(g, h, live) && ValidatorLive(v, live)
    ensures StepAt(g, fuel, v, e) == StepAt(h, fuel, v, e)
    ensures StepAt(g, fuel, v, e).Some? ==> ValidatorLive(StepAt(g, fuel, v, e).value, live)
    decreases v
  {
    hide Agree, Alive, ActAt;
    if v.valid {
      DispatchSame(g, h, live, fuel, v.stack, e);
      if DispatchAt(g, fuel, v.stack, e).Some? {
        ActSame(g, h, live, fuel, v.root, DispatchAt(g, fuel, v.stack, e).value, e);
      }
    }
  }

  lemma {:induction false} DispatchSame(g: Graph, h: Graph, live: iset<Loc>, fuel: nat, cs: seq<GContext>, e: Event)
    requires Agree(g, h, live) && StackLive(cs, live)
    ensures DispatchAt(g, fuel, cs, e) == DispatchAt(h, fuel, cs, e)
    ensures DispatchAt(g, fuel, cs, e).Some? ==> StackLive(DispatchAt(g, fuel, cs, e).value, live)
    decreases cs
  {
    hide Agree, Alive, StepAllAt, AllLive;
    forall i | 0 <= i < |cs|
      ensures StepAllAt(g, fuel, cs[i].validators, e) == StepAllAt(h, fuel, cs[i].validators, e)
      ensures StepAllAt(g, fuel, cs[i].validators, e).Some? ==> AllLive(StepAllAt(g, fuel, cs[i].validators, e).value, live)
    {
      assert ContextLive(cs[i], live);
      AllStepsSame(g, h, live, fuel, cs[i].validators, e);
    }
    if DispatchAt(g, fuel, cs, e).Some? {
      assert DispatchAt(g, fuel, cs, e).value == DispatchAt(h, fuel, cs, e).value;
    }
  }

  lemma {:induction false} AllStepsSame(g: Graph, h: Graph, live: iset<Loc>, fuel: nat, vs: seq<GValidator>, e: Event)
    requires Agree(g, h, live) && AllLive(vs, live)
    ensures StepAllAt(g, fuel, vs, e) == StepAllAt(h, fuel, vs, e)
    ensures StepAllAt(g, fuel, vs, e).Some? ==> AllLive(StepAllAt(g, fuel, vs, e).value, live)
    decreases vs
  {
    hide Agree, StepAt, ValidatorLive;
    forall k | 0 <= k < |vs|
      ensures StepAt(g, fuel, vs[k], e) == StepAt(h, fuel, vs[k], e)
      ensures StepAt(g, fuel, vs[k], e).Some? ==> ValidatorLive(StepAt(g, fuel, vs[k], e).value, live)
    {
      StepSame(g, h, live, fuel, vs[k], e);
    }
    assert seq(|vs|, i requires 0 <= i < |vs| => StepAt(g, fuel, vs[i], e))
        == seq(|vs|, i requires 0 <= i < |vs| => StepAt(h, fuel, vs[i], e));
  }

  lemma {:induction false} RunSame(g: Graph, h: Graph, live: iset<Loc>, fuel: nat, v: GValidator, es: seq<Event>)
    requires Agree(g, h, live) && ValidatorLive(v, live)
    ensures RunAt(g, fuel, v, es) == RunAt(h, fuel, v, es)
    decreases |es|
  {
    hide Agree, StepAt, ValidatorLive;
    if es != [] {
      StepSame(g, h, live, fuel, v, es[0]);
      if StepAt(g, fuel, v, es[0]).Some? {
        RunSame(g, h, live, fuel, StepAt(g, fuel, v, es[0]).value, es[1..]);
      }
    }
  }

  // ------------------------------------------------------------ the theorem

  lemma {:induction false} RunSeen(g: Graph, rank: Rank, fuel: nat, v: GValidator, es: seq<Event>, n: nat, d: nat)
    requires Guarded(g, rank) && Limited(v, n) && n + |es| <= d && RunAt(g, fuel, v, es).Some?
    ensures Seen(g, rank, RunAt(g, fuel, v, es).value, d) == Run(Seen(g, rank, v, d), es)
    decreases |es|
  {
    hide Guarded, StepAt, Step, Seen, Limited;
    if es != [] {
      StepSeen(g, rank, fuel, v, es[0], n, d);
      StepLimited(g, fuel, v, es[0], n);
      RunSeen(g, rank, fuel, StepAt(g, fuel, v, es[0]).value, es[1..], n + 1, d);
    }
  }

  lemma {:induction false} FitsDeeper(t: Tree, d: nat)
    requires |TreeEvents(t)| <= d
    ensures Fits(t, d)
    decreases t
  {
    match t
    case Leaf(_) =>
    case Arr(ts) =>
      forall i | 0 <= i < |ts| ensures Fits(ts[i], d - 1) {
        ElementIsShorter(ts, i);
        FitsDeeper(ts[i], d - 1);
      }
    case Obj(ms) =>
      forall i | 0 <= i < |ms| ensures Fits(ms[i].tree, d - 1) {
        MemberIsShorter(ms, i);
        FitsDeeper(ms[i].tree, d - 1);
      }
  }

  lemma {:induction false} ElementIsShorter(ts: seq<Tree>, i: nat)
    requires i < |ts|
    ensures |TreeEvents(ts[i])| <= |ElemEvents(ts)|
    decreases |ts|
  {
    if i > 0 {
      ElementIsShorter(ts[1..], i - 1);
    }
  }

  lemma {:induction false} MemberIsShorter(ms: seq<TreeMember>, i: nat)
    requires i < |ms|
    ensures |TreeEvents(ms[i].tree)| <= |MemberEvents(ms)|
    decreases |ms|
  {
    if i > 0 {
      MemberIsShorter(ms[1..], i - 1);
    }
  }

  /** Streaming validation with ranks that fall: sound and complete. */
  lemma {:induction false} ValidatesRanked(g: Graph, rank: Rank, fuel: nat, r: SchemaRef, t: Tree)
    requires Guarded(g, rank) && GraphOk(g) && TreeOk(t) && forall loc :: !Nests(g, At(loc), fuel + 1)
    ensures RunAt(g, fuel, FreshAt(r), TreeEvents(t)) == Some(if Means(g, rank, r, t) then FreshAt(r) else DeadAt(r))
  {
    hide Guarded, GraphOk, Unrolled, Means, Run, StackSeen, ContextSeen, RunAt;
    var d := |TreeEvents(t)|;
    FitsDeeper(t, d);
    ValidatesGraph(g, rank, r, t, d);
    NothingLimited(0);
    assert StackSeen(g, rank, [], d) == [] by { NothingSeen(g, rank, d); }
    RunEnds(g, fuel, FreshAt(r), TreeEvents(t));
    RunSeen(g, rank, fuel, FreshAt(r), TreeEvents(t), 0, d);
    RootStays(g, fuel, FreshAt(r), TreeEvents(t));
  }

  lemma {:induction false} NothingSeen(g: Graph, rank: Rank, d: nat)
    requires Guarded(g, rank)
    ensures StackSeen(g, rank, [], d) == []
  {
  }

  lemma {:induction false} RootStays(g: Graph, fuel: nat, v: GValidator, es: seq<Event>)
    requires RunAt(g, fuel, v, es).Some?
    ensures RunAt(g, fuel, v, es).value.root == v.root
    decreases |es|
  {
    hide EnteredAt, EndsWellAt, DispatchAt;
    if es != [] {
      RootStays(g, fuel, StepAt(g, fuel, v, es[0]).value, es[1..]);
    }
  }

  /** Streaming validation over a graph of schemas is sound and complete, whatever cycles there are, where no validators
      that can be reached nest more than `fuel` deep: the events of any tree leave the validator valid, ready for the next
      one, exactly when the tree is what the schema means. */
  lemma {:induction false} ValidatesAlongReferences(g: Graph, fuel: nat, r: SchemaRef, t: Tree)
    requires GraphOk(g) && TreeOk(t) && forall loc :: loc in Reached(g, r) ==> !Nests(g, At(loc), fuel + 1)
    ensures AllEnd(g, r)
    ensures RunAt(g, fuel, FreshAt(r), TreeEvents(t)) == Some(if MeansFrom(g, r, t) then FreshAt(r) else DeadAt(r))
  {
    hide Reached, Guarded, GraphOk, Means, RunAt, Closed, Nests;
    var part, live := GraphFrom(g, r), Reached(g, r);
    RankExactlyWhen(g, r);
    PartIsOk(g, r);
    forall loc ensures !Nests(part, At(loc), fuel + 1) {
      if Nests(part, At(loc), fuel + 1) {
        PartNests(g, r, loc, fuel + 1);
      }
    }
    ValidatesRanked(part, DepthRank(g), fuel, r, t);
    PartAgrees(g, r);
    assert Alive(live, r) by { ReachedIsClosed(g, r); }
    assert ValidatorLive(FreshAt(r), live);
    RunSame(g, part, live, fuel, FreshAt(r), TreeEvents(t));
  }

  lemma {:induction false} PartIsOk(g: Graph, r: SchemaRef)
    requires GraphOk(g)
    ensures GraphOk(GraphFrom(g, r))
  {
    hide Reached;
    assert ShapeOk(TypelessShape());
  }

  lemma {:induction false} PartNests(g: Graph, r: SchemaRef, loc: Loc, n: nat)
    requires n > 0 && Nests(GraphFrom(g, r), At(loc), n)
    ensures loc in Reached(g, r) && Nests(g, At(loc), n)
    decreases n
  {
    hide Reached;
    var part := GraphFrom(g, r);
    var i :| 0 <= i < |SubRefs(part, At(loc))| && Nests(part, SubRefs(part, At(loc))[i], n - 1);
    assert loc in Reached(g, r);
    if n > 1 {
      PartNests(g, r, SubRefs(g, At(loc))[i].loc, n - 1);
    }
    assert Nests(g, SubRefs(g, At(loc))[i], n - 1);
  }
}
