/** The streaming validator decides what its schema means. */
module Validity {
  import opened Options
  import opened Json
  import opened Document
  import opened Schema
  import opened Validation

  // ------------------------------------------------------------ runs

  lemma {:induction false} RunAppended(v: Validator, es: seq<Event>, fs: seq<Event>)
    ensures Run(v, es + fs) == Run(Run(v, es), fs)
    decreases |es|
  {
    if es == [] {
      assert es + fs == fs;
    } else {
      assert (es + fs)[1..] == es[1..] + fs;
      RunAppended(Step(v, es[0]), es[1..], fs);
    }
  }

  lemma {:induction false} RunOne(v: Validator, e: Event)
    ensures Run(v, [e]) == Step(v, e)
  {
    assert Run(Step(v, e), [e][1..]) == Step(v, e);
  }

  lemma {:induction false} RunDead(root: Schema, es: seq<Event>)
    ensures Run(Dead(root), es) == Dead(root)
    decreases |es|
  {
    if es != [] {
      RunDead(root, es[1..]);
    }
  }

  function RunAll(vs: seq<Validator>, es: seq<Event>): seq<Validator> {
    seq(|vs|, i requires 0 <= i < |vs| => Run(vs[i], es))
  }

  /** A context whose parallel validators have received `es`. */
  function Told(c: Context, es: seq<Event>): Context {
    c.(validators := RunAll(c.validators, es))
  }

  function ToldAll(cs: seq<Context>, es: seq<Event>): seq<Context> {
    seq(|cs|, i requires 0 <= i < |cs| => Told(cs[i], es))
  }

  lemma {:induction false} ToldNothing(cs: seq<Context>)
    ensures ToldAll(cs, []) == cs
  {
    forall i | 0 <= i < |cs| ensures Told(cs[i], []) == cs[i] {
      assert RunAll(cs[i].validators, []) == cs[i].validators;
    }
  }

  lemma {:induction false} DispatchTells(cs: seq<Context>, e: Event)
    ensures Dispatch(cs, e) == ToldAll(cs, [e])
  {
    forall i | 0 <= i < |cs| ensures Dispatch(cs, e)[i] == Told(cs[i], [e]) {
      forall j | 0 <= j < |cs[i].validators| ensures Run(cs[i].validators[j], [e]) == Step(cs[i].validators[j], e) {
        RunOne(cs[i].validators[j], e);
      }
      assert StepAll(cs[i].validators, e) == RunAll(cs[i].validators, [e]);
    }
  }

  lemma {:induction false} ToldTwice(c: Context, es: seq<Event>, fs: seq<Event>)
    ensures Told(Told(c, es), fs) == Told(c, es + fs)
  {
    var vs := c.validators;
    forall j | 0 <= j < |vs| ensures Run(Run(vs[j], es), fs) == Run(vs[j], es + fs) {
      RunAppended(vs[j], es, fs);
    }
    assert RunAll(RunAll(vs, es), fs) == RunAll(vs, es + fs);
  }

  lemma {:induction false} ToldAllTwice(cs: seq<Context>, es: seq<Event>, fs: seq<Event>)
    ensures ToldAll(ToldAll(cs, es), fs) == ToldAll(cs, es + fs)
  {
    forall i | 0 <= i < |cs| ensures Told(Told(cs[i], es), fs) == Told(cs[i], es + fs) {
      ToldTwice(cs[i], es, fs);
    }
  }

  lemma {:induction false} ToldTop(cs: seq<Context>, c: Context, es: seq<Event>)
    ensures ToldAll(cs + [c], es) == ToldAll(cs, es) + [Told(c, es)]
  {
  }

  // ------------------------------------------------------------ one schema

  /** The comparisons by signedness are the mathematical ones. */
  lemma {:induction false} AdmitsScalars(s: Schema, e: Event)
    requires TableOk(s) && TreeOk(Leaf(e))
    ensures Admits(s, e) == ScalarHolds(s, e)
  {
  }

  lemma {:induction false} AnyMeans(xs: seq<Schema>, t: Tree, valid: seq<bool>)
    requires |valid| == |xs| && forall i :: 0 <= i < |xs| ==> valid[i] == Holds(xs[i], t)
    ensures AnyValid(valid) <==> AnyHolds(xs, t)
  {
    hide Holds;
    if i :| 0 <= i < |xs| && Holds(xs[i], t) {
      assert valid[i];
    }
  }

  lemma {:induction false} OneMeans(xs: seq<Schema>, t: Tree, valid: seq<bool>)
    requires |valid| == |xs| && forall i :: 0 <= i < |xs| ==> valid[i] == Holds(xs[i], t)
    ensures OneValid(valid) <==> OneHolds(xs, t)
  {
    hide Holds, OneValid, OneHolds;
    if OneHolds(xs, t) {
      OneIsValid(xs, t, valid);
    }
    if OneValid(valid) {
      OneDoesHold(xs, t, valid);
    }
  }

  lemma {:induction false} OneIsValid(xs: seq<Schema>, t: Tree, valid: seq<bool>)
    requires |valid| == |xs| && forall i :: 0 <= i < |xs| ==> valid[i] == Holds(xs[i], t)
    requires OneHolds(xs, t)
    ensures OneValid(valid)
  {
    hide Holds;
    var i :| 0 <= i < |xs| && Holds(xs[i], t) && forall j :: 0 <= j < |xs| && Holds(xs[j], t) ==> j == i;
    assert valid[i] && forall j :: 0 <= j < |valid| && valid[j] ==> j == i;
  }

  lemma {:induction false} OneDoesHold(xs: seq<Schema>, t: Tree, valid: seq<bool>)
    requires |valid| == |xs| && forall i :: 0 <= i < |xs| ==> valid[i] == Holds(xs[i], t)
    requires OneValid(valid)
    ensures OneHolds(xs, t)
  {
    hide Holds;
    var i :| 0 <= i < |valid| && valid[i] && forall j :: 0 <= j < |valid| && valid[j] ==> j == i;
    assert Holds(xs[i], t) && forall j :: 0 <= j < |xs| && Holds(xs[j], t) ==> j == i;
  }

  /** Part of the verdicts. */
  lemma {:induction false} SliceMeans(all: seq<Schema>, t: Tree, valid: seq<bool>, a: nat, xs: seq<Schema>)
    requires |valid| == |all| && forall i :: 0 <= i < |all| ==> valid[i] == Holds(all[i], t)
    requires a + |xs| <= |all| && all[a..a + |xs|] == xs
    ensures AllValid(valid[a..a + |xs|]) <==> AllHold(xs, t)
    ensures AnyValid(valid[a..a + |xs|]) <==> AnyHolds(xs, t)
    ensures OneValid(valid[a..a + |xs|]) <==> OneHolds(xs, t)
  {
    hide Holds, AnyValid, OneValid, AnyHolds, OneHolds;
    forall i | 0 <= i < |xs| ensures valid[a..a + |xs|][i] == Holds(xs[i], t) {
      assert xs[i] == all[a + i];
    }
    AnyMeans(xs, t, valid[a..a + |xs|]);
    OneMeans(xs, t, valid[a..a + |xs|]);
  }

  lemma {:induction false} CombineMeans(s: Schema, t: Tree, valid: seq<bool>)
    requires |valid| == |Subs(s)| && forall i :: 0 <= i < |Subs(s)| ==> valid[i] == Holds(Subs(s)[i], t)
    ensures Combine(s, valid) == Combined(s, t)
  {
    hide Holds, AllValid, AnyValid, OneValid, AllHold, AnyHolds, OneHolds;
    var a, b, c := |s.allOf|, |s.allOf| + |s.anyOf|, |s.allOf| + |s.anyOf| + |s.oneOf|;
    SubsInOrder(s);
    SliceMeans(Subs(s), t, valid, 0, s.allOf);
    SliceMeans(Subs(s), t, valid, a, s.anyOf);
    SliceMeans(Subs(s), t, valid, b, s.oneOf);
    assert valid[0..a] == valid[..a];
  }

  lemma {:induction false} SubsInOrder(s: Schema)
    ensures var a, b, c := |s.allOf|, |s.allOf| + |s.anyOf|, |s.allOf| + |s.anyOf| + |s.oneOf|;
            && c <= |Subs(s)| && Subs(s)[0..a] == s.allOf && Subs(s)[a..b] == s.anyOf && Subs(s)[b..c] == s.oneOf
            && (s.negated.Some? ==> c < |Subs(s)| && Subs(s)[c] == s.negated.value)
  {
  }

  lemma {:induction false} SubOk(s: Schema, i: nat)
    requires SchemaOk(s) && i < |Subs(s)|
    ensures SchemaOk(Subs(s)[i])
  {
    var a, b := |s.allOf|, |s.allOf| + |s.anyOf|;
    assert Subs(s)[i] == if i < a then s.allOf[i] else if i < b then s.anyOf[i - a]
                         else if i < b + |s.oneOf| then s.oneOf[i - b] else s.negated.value;
  }

  lemma {:induction false} ItemOk(s: Schema, i: nat)
    requires SchemaOk(s) && ItemSchema(s, i).Some?
    ensures SchemaOk(ItemSchema(s, i).value)
  {
    assert SchemaOk(TYPELESS);
  }

  lemma {:induction false} MemberOk(s: Schema, name: Bytes)
    requires SchemaOk(s) && MemberSchema(s, name).Some?
    ensures SchemaOk(MemberSchema(s, name).value)
  {
    assert SchemaOk(TYPELESS);
  }

  // ------------------------------------------------------------ values

  function FirstEvent(t: Tree): Event {
    match t
    case Leaf(e) => e
    case Arr(_) => StartArray
    case Obj(_) => StartObject
  }

  function OtherEvents(t: Tree): seq<Event> {
    match t
    case Leaf(_) => []
    case Arr(ts) => ElemEvents(ts) + [EndArray(|ts|)]
    case Obj(ms) => MemberEvents(ms) + [EndObject(|ms|)]
  }

  lemma {:induction false} EventsOf(t: Tree)
    ensures TreeEvents(t) == [FirstEvent(t)] + OtherEvents(t)
  {
  }

  /** The validator that has taken a whole value of schema `s` above `below`. */
  function After(root: Schema, below: seq<Context>, s: Schema, t: Tree): Validator {
    if Holds(s, t) then Validator(root, true, ToldAll(below, OtherEvents(t))) else Dead(root)
  }

  /** A value whose first event has been taken everywhere is judged by the end of its last one. */
  lemma {:induction false} JudgesValue(root: Schema, below: seq<Context>, s: Schema, t: Tree)
    requires SchemaOk(s) && TreeOk(t)
    ensures Run(Begin(root, below, s, FirstEvent(t)), OtherEvents(t)) == After(root, below, s, t)
    decreases t, s, 1
  {
    match t
    case Leaf(e) =>
      JudgesParallel(s, t);
      JudgesLeaf(root, below, s, e);
    case Arr(ts) =>
      JudgesParallel(s, t);
      JudgesArray(root, below, s, ts);
    case Obj(ms) =>
      JudgesParallel(s, t);
      JudgesObject(root, below, s, ms);
  }

  lemma {:induction false} JudgesLeaf(root: Schema, below: seq<Context>, s: Schema, e: Event)
    requires SchemaOk(s) && TreeOk(Leaf(e))
    requires EndsWell(Told(Entered(s, e), [])) == Combined(s, Leaf(e))
    ensures Run(Begin(root, below, s, e), []) == After(root, below, s, Leaf(e))
  {
    AdmitsScalars(s, e);
    ToldNothing(below);
    ToldNothing([Entered(s, e)]);
    assert Told(Entered(s, e), []) == ToldAll([Entered(s, e)], [])[0];
    assert Holds(s, Leaf(e)) == (Admits(s, e) && EndsWell(Entered(s, e)));
    assert OtherEvents(Leaf(e)) == [];
  }

  lemma {:induction false} JudgesParallel(s: Schema, t: Tree)
    requires SchemaOk(s) && TreeOk(t)
    ensures EndsWell(Told(Entered(s, FirstEvent(t)), OtherEvents(t))) == Combined(s, t)
    decreases t, s, 0
  {
    var c := Told(Entered(s, FirstEvent(t)), OtherEvents(t));
    forall i | 0 <= i < |Subs(s)| ensures Verdicts(c)[i] == Holds(Subs(s)[i], t) {
      SubIsSmaller(s, i);
      SubOk(s, i);
      JudgesValue(Subs(s)[i], [], Subs(s)[i], t);
    }
    CombineMeans(s, t, Verdicts(c));
  }

  // ------------------------------------------------------------ arrays

  /** After `n` elements more. */
  function WithElements(c: Context, n: nat): Context {
    c.(arrayElementIndex := c.arrayElementIndex + n)
  }

  /** Behind the elements `ts` of the array whose context is `c`. */
  function Taken(root: Schema, below: seq<Context>, c: Context, ts: seq<Tree>): Validator {
    if ElementsHold(c.schema, c.arrayElementIndex, ts)
    then Validator(root, true, ToldAll(below + [WithElements(c, |ts|)], ElemEvents(ts)))
    else Dead(root)
  }

  lemma {:induction false} TakenFirst(root: Schema, below: seq<Context>, c: Context, ts: seq<Tree>)
    requires ts != []
    ensures var es := TreeEvents(ts[0]);
            Taken(root, below, c, ts)
            == if ElementHolds(c.schema, c.arrayElementIndex, ts[0])
               then Taken(root, ToldAll(below, es), Told(WithElements(c, 1), es), ts[1..])
               else Dead(root)
  {
    hide ElementHolds, ElementsHold, Told, ToldAll, WithElements, TreeEvents;
    var es, rest := TreeEvents(ts[0]), ElemEvents(ts[1..]);
    assert ElemEvents(ts) == es + rest;
    FirstElementHolds(c.schema, c.arrayElementIndex, ts);
    ElementsOnly(c, |ts| - 1, es);
    ToldMore(below, WithElements(c, |ts|), es, rest);
  }

  lemma {:induction false} JudgesElements(root: Schema, below: seq<Context>, c: Context, ts: seq<Tree>)
    requires c.inArray && SchemaOk(c.schema) && forall i :: 0 <= i < |ts| ==> TreeOk(ts[i])
    ensures Run(Validator(root, true, below + [c]), ElemEvents(ts)) == Taken(root, below, c, ts)
    decreases ts, c.schema, 3
  {
    hide Holds, SchemaOk, Begin, OtherEvents, Told, ToldAll, WithElements, Run, TreeEvents, Taken;
    if ts == [] {
      TakenNothing(root, below, c);
    } else {
      var t, es, rest := ts[0], TreeEvents(ts[0]), ElemEvents(ts[1..]);
      var c1 := WithElements(c, 1);
      assert ElemEvents(ts) == es + rest;
      RunAppended(Validator(root, true, below + [c]), es, rest);
      var item := ItemSchema(c.schema, c.arrayElementIndex);
      if item.Some? {
        ItemOk(c.schema, c.arrayElementIndex);
        JudgesValue(root, Below(below, c, FirstEvent(t)), item.value, t);
      }
      JudgesElement(root, below, c, t);
      TakenFirst(root, below, c, ts);
      if ElementHolds(c.schema, c.arrayElementIndex, t) {
        ElementsOnly(c, 0, es);
        JudgesElements(root, ToldAll(below, es), Told(c1, es), ts[1..]);
        ToldTop(below, c1, es);
      } else {
        RunDead(root, rest);
      }
    }
  }

  lemma {:induction false} TakenNothing(root: Schema, below: seq<Context>, c: Context)
    ensures Run(Validator(root, true, below + [c]), []) == Taken(root, below, c, [])
  {
    ToldNothing(below + [c]);
  }

  lemma {:induction false} ElementsOnly(c: Context, n: nat, es: seq<Event>)
    ensures var d := Told(WithElements(c, 1), es);
            && d.schema == c.schema && d.inArray == c.inArray && d.arrayElementIndex == c.arrayElementIndex + 1
            && WithElements(d, n) == Told(WithElements(c, n + 1), es)
  {
  }

  lemma {:induction false} ToldMore(below: seq<Context>, c: Context, es: seq<Event>, fs: seq<Event>)
    ensures ToldAll(ToldAll(below, es) + [Told(c, es)], fs) == ToldAll(below + [c], es + fs)
  {
    ToldTop(below, c, es);
    ToldAllTwice(below + [c], es, fs);
  }

  lemma {:induction false} FirstElementHolds(s: Schema, n: nat, ts: seq<Tree>)
    requires ts != []
    ensures ElementsHold(s, n, ts) <==> ElementHolds(s, n, ts[0]) && ElementsHold(s, n + 1, ts[1..])
  {
    hide ElementHolds;
    var rest := ts[1..];
    if ElementsHold(s, n, ts) {
      assert ElementHolds(s, n + 0, ts[0]);
      forall i | 0 <= i < |rest| ensures ElementHolds(s, n + 1 + i, rest[i]) {
        assert ElementHolds(s, n + (1 + i), ts[1 + i]);
      }
    }
    if ElementHolds(s, n, ts[0]) && ElementsHold(s, n + 1, rest) {
      forall i | 0 <= i < |ts| ensures ElementHolds(s, n + i, ts[i]) {
        if i > 0 {
          assert ElementHolds(s, n + 1 + (i - 1), rest[i - 1]);
        }
      }
    }
  }

  /** The stack under an element of `c` that begins with `e`. */
  function Below(below: seq<Context>, c: Context, e: Event): seq<Context> {
    ToldAll(below, [e]) + [Told(WithElements(c, 1), [e])]
  }

  lemma {:induction false} JudgesElement(root: Schema, below: seq<Context>, c: Context, t: Tree)
    requires c.inArray && TreeOk(t)
    requires var item, b := ItemSchema(c.schema, c.arrayElementIndex), Below(below, c, FirstEvent(t));
             item.Some? ==> Run(Begin(root, b, item.value, FirstEvent(t)), OtherEvents(t)) == After(root, b, item.value, t)
    ensures Run(Validator(root, true, below + [c]), TreeEvents(t))
            == if ElementHolds(c.schema, c.arrayElementIndex, t)
               then Validator(root, true, ToldAll(below + [WithElements(c, 1)], TreeEvents(t)))
               else Dead(root)
  {
    var e, es := FirstEvent(t), OtherEvents(t);
    var item := ItemSchema(c.schema, c.arrayElementIndex);
    var v := Validator(root, true, below + [c]);
    EventsOf(t);
    RunAppended(v, [e], es);
    RunOne(v, e);
    DispatchTells(below + [c], e);
    ToldTop(below, c, [e]);
    if item.None? {
      RunDead(root, es);
    } else {
      var c1 := WithElements(c, 1);
      ToldTop(below, c1, [e]);
      ToldAllTwice(below + [c1], [e], es);
      StepOnElement(root, below, c, e);
    }
  }

  lemma {:induction false} StepOnElement(root: Schema, below: seq<Context>, c: Context, e: Event)
    requires c.inArray && (IsScalar(e) || e.StartObject? || e.StartArray?)
    requires ItemSchema(c.schema, c.arrayElementIndex).Some?
    ensures Step(Validator(root, true, below + [c]), e)
         == Begin(root, Below(below, c, e), ItemSchema(c.schema, c.arrayElementIndex).value, e)
  {
    DispatchTells(below + [c], e);
    ToldTop(below, c, [e]);
    var st := ToldAll(below, [e]) + [Told(c, [e])];
    assert st[..|st| - 1] == ToldAll(below, [e]);
  }

  lemma {:induction false} JudgesArray(root: Schema, below: seq<Context>, s: Schema, ts: seq<Tree>)
    requires SchemaOk(s) && TreeOk(Arr(ts))
    requires EndsWell(Told(Entered(s, StartArray), OtherEvents(Arr(ts)))) == Combined(s, Arr(ts))
    ensures Run(Begin(root, below, s, StartArray), OtherEvents(Arr(ts))) == After(root, below, s, Arr(ts))
    decreases ts, s, 5
  {
    hide Holds, SchemaOk, Begin, Told, ToldAll, WithElements, ElementsHold, Closes, EndsWell, Combined;
    if ArrayType !in s.types {
      RefusesArray(root, below, s, ts);
    } else if ElementsHold(s, 0, ts) {
      JudgesHeldArray(root, below, s, ts);
    } else {
      JudgesBrokenArray(root, below, s, ts);
    }
  }

  lemma {:induction false} RefusesArray(root: Schema, below: seq<Context>, s: Schema, ts: seq<Tree>)
    requires ArrayType !in s.types
    ensures Run(Begin(root, below, s, StartArray), OtherEvents(Arr(ts))) == After(root, below, s, Arr(ts))
  {
    hide Combined, SchemaOk, Run;
    assert !Own(s, Arr(ts)) && !Admits(s, StartArray);
    RunDead(root, OtherEvents(Arr(ts)));
  }

  lemma {:induction false} ArrayBegins(root: Schema, below: seq<Context>, s: Schema, ts: seq<Tree>)
    requires SchemaOk(s) && TreeOk(Arr(ts)) && ArrayType in s.types
    ensures OtherEvents(Arr(ts)) == ElemEvents(ts) + [EndArray(|ts|)]
    ensures Begin(root, below, s, StartArray) == Validator(root, true, below + [Entered(s, StartArray)])
    ensures Entered(s, StartArray).inArray && Entered(s, StartArray).schema == s && Entered(s, StartArray).arrayElementIndex == 0
  {
    hide SchemaOk, TreeOk;
  }

  lemma {:induction false} JudgesHeldArray(root: Schema, below: seq<Context>, s: Schema, ts: seq<Tree>)
    requires SchemaOk(s) && TreeOk(Arr(ts)) && ArrayType in s.types && ElementsHold(s, 0, ts)
    requires EndsWell(Told(Entered(s, StartArray), OtherEvents(Arr(ts)))) == Combined(s, Arr(ts))
    ensures Run(Begin(root, below, s, StartArray), OtherEvents(Arr(ts))) == After(root, below, s, Arr(ts))
    decreases ts, s, 4
  {
    hide SchemaOk, Begin, ToldAll, ElementsHold, EndsWell, Combined, Run, Entered, OtherEvents, ElemEvents;
    var c, es, end := Entered(s, StartArray), ElemEvents(ts), EndArray(|ts|);
    var last := WithElements(c, |ts|);
    ArrayBegins(root, below, s, ts);
    RunAppended(Begin(root, below, s, StartArray), es, [end]);
    JudgesElements(root, below, c, ts);
    ClosesValue(root, below, last, es, end);
    SameEnd(Told(last, es + [end]), Told(c, es + [end]));
    assert Holds(s, Arr(ts)) == (Closes(last, end) && Combined(s, Arr(ts)));
  }

  lemma {:induction false} JudgesBrokenArray(root: Schema, below: seq<Context>, s: Schema, ts: seq<Tree>)
    requires SchemaOk(s) && TreeOk(Arr(ts)) && ArrayType in s.types && !ElementsHold(s, 0, ts)
    ensures Run(Begin(root, below, s, StartArray), OtherEvents(Arr(ts))) == After(root, below, s, Arr(ts))
    decreases ts, s, 4
  {
    hide SchemaOk, Begin, Told, ToldAll, ElementsHold, EndsWell, Combined, Run, Entered, OtherEvents, ElemEvents;
    var c, es, end := Entered(s, StartArray), ElemEvents(ts), EndArray(|ts|);
    ArrayBegins(root, below, s, ts);
    RunAppended(Begin(root, below, s, StartArray), es, [end]);
    JudgesElements(root, below, c, ts);
    RunDead(root, [end]);
    assert !Own(s, Arr(ts));
  }

  lemma {:induction false} SameEnd(c: Context, d: Context)
    requires c.schema == d.schema && c.validators == d.validators
    ensures EndsWell(c) == EndsWell(d)
  {
    assert Verdicts(c) == Verdicts(d);
  }

  /** The closing bracket of the value whose context is `c`. */
  lemma {:induction false} ClosesValue(root: Schema, below: seq<Context>, c: Context, es: seq<Event>, end: Event)
    requires end.EndArray? || end.EndObject?
    ensures Run(Validator(root, true, ToldAll(below + [c], es)), [end])
            == if Closes(c, end) && EndsWell(Told(c, es + [end])) then Validator(root, true, ToldAll(below, es + [end]))
               else Dead(root)
  {
    var v := Validator(root, true, ToldAll(below + [c], es));
    RunOne(v, end);
    DispatchTells(v.stack, end);
    ToldAllTwice(below + [c], es, [end]);
    ToldTop(below, c, es + [end]);
    var st := ToldAll(below, es + [end]) + [Told(c, es + [end])];
    assert st[..|st| - 1] == ToldAll(below, es + [end]);
  }

  // ------------------------------------------------------------ objects

  /** Behind one more member. */
  function WithMember(c: Context, name: Bytes): Context {
    var i := FindProperty(c.schema.properties, name);
    c.(valueSchema := MemberSchema(c.schema, name), exist := if i < |c.exist| then c.exist[i := true] else c.exist)
  }

  function WithMembers(c: Context, ms: seq<TreeMember>): Context
    decreases |ms|
  {
    if ms == [] then c else WithMembers(WithMember(c, ms[0].name), ms[1..])
  }

  /** Members change neither the schema nor the parallel validators of their object; what they change does not
      depend on those validators. */
  lemma {:induction false} MembersOnly(c: Context, ms: seq<TreeMember>, es: seq<Event>)
    ensures WithMembers(c, ms).schema == c.schema && WithMembers(c, ms).validators == c.validators
    ensures WithMembers(Told(c, es), ms) == Told(WithMembers(c, ms), es)
    decreases |ms|
  {
    if ms != [] {
      MembersOnly(WithMember(c, ms[0].name), ms[1..], es);
      assert WithMember(Told(c, es), ms[0].name) == Told(WithMember(c, ms[0].name), es);
    }
  }

  /** A property counts as seen if it was before or a member has its name. */
  lemma {:induction false} SeenNames(c: Context, ms: seq<TreeMember>)
    requires TableOk(c.schema) && |c.exist| == |c.schema.properties|
    ensures var d := WithMembers(c, ms);
            |d.exist| == |c.exist|
            && forall k :: 0 <= k < |c.exist| ==> d.exist[k] == (c.exist[k] || HasMember(ms, c.schema.properties[k].name))
    decreases |ms|
  {
    if ms != [] {
      var c1, ps := WithMember(c, ms[0].name), c.schema.properties;
      SeenNames(c1, ms[1..]);
      forall k | 0 <= k < |c.exist|
        ensures WithMembers(c, ms).exist[k] == (c.exist[k] || HasMember(ms, ps[k].name))
      {
        FoundAt(ps, ms[0].name, k);
        FirstOrLater(ms, ps[k].name);
      }
    }
  }

  lemma {:induction false} FoundAt(ps: seq<Property>, name: Bytes, k: nat)
    requires k < |ps| && forall i, j :: 0 <= i < j < |ps| ==> ps[i].name != ps[j].name
    ensures FindProperty(ps, name) == k <==> ps[k].name == name
  {
    var i := FindProperty(ps, name);
    if i < k {
      assert ps[i].name != ps[k].name;
    }
  }

  lemma {:induction false} FirstOrLater(ms: seq<TreeMember>, name: Bytes)
    requires ms != []
    ensures HasMember(ms, name) <==> ms[0].name == name || HasMember(ms[1..], name)
  {
    if HasMember(ms, name) {
      var i :| 0 <= i < |ms| && ms[i].name == name;
      if i > 0 {
        assert ms[1..][i - 1].name == name;
      }
    }
    if i :| 0 <= i < |ms[1..]| && ms[1..][i].name == name {
      assert ms[i + 1].name == name;
    }
  }

  /** Nothing is missing at the end exactly when every required name has a member or a default. */
  lemma {:induction false} MissingMeans(s: Schema, ms: seq<TreeMember>)
    requires SchemaOk(s)
    ensures NoneMissing(WithMembers(Entered(s, StartObject), ms)) == RequiredHolds(s, ms)
  {
    var c, ps := Entered(s, StartObject), s.properties;
    MembersOnly(c, ms, []);
    if HasRequired(s) {
      SeenNames(c, ms);
      assert forall k :: 0 <= k < |ps| ==> WithMembers(c, ms).exist[k] == HasMember(ms, ps[k].name);
    } else {
      NothingToSee(c, ms);
    }
  }

  lemma {:induction false} NothingToSee(c: Context, ms: seq<TreeMember>)
    requires c.exist == []
    ensures WithMembers(c, ms).exist == []
    decreases |ms|
  {
    if ms != [] {
      NothingToSee(WithMember(c, ms[0].name), ms[1..]);
    }
  }

  lemma {:induction false} FirstMemberHolds(s: Schema, ms: seq<TreeMember>)
    requires ms != []
    ensures MembersHold(s, ms) <==> MemberHolds(s, ms[0]) && MembersHold(s, ms[1..])
  {
    hide MemberHolds;
    var rest := ms[1..];
    if MembersHold(s, ms) {
      forall i | 0 <= i < |rest| ensures MemberHolds(s, rest[i]) {
        assert rest[i] == ms[1 + i];
      }
    }
    if MemberHolds(s, ms[0]) && MembersHold(s, rest) {
      forall i | 0 <= i < |ms| ensures MemberHolds(s, ms[i]) {
        if i > 0 {
          assert ms[i] == rest[i - 1];
        }
      }
    }
  }

  /** The stack under the value of a member. */
  function Under(below: seq<Context>, c: Context, m: TreeMember): seq<Context> {
    ToldAll(below + [WithMember(c, m.name)], [Key(m.name), FirstEvent(m.tree)])
  }

  lemma {:induction false} JudgesMember(root: Schema, below: seq<Context>, c: Context, m: TreeMember)
    requires !c.inArray && TreeOk(m.tree)
    requires var s, b := MemberSchema(c.schema, m.name), Under(below, c, m);
             s.Some? ==> Run(Begin(root, b, s.value, FirstEvent(m.tree)), OtherEvents(m.tree)) == After(root, b, s.value, m.tree)
    ensures var s, es := MemberSchema(c.schema, m.name), [Key(m.name)] + TreeEvents(m.tree);
            Run(Validator(root, true, below + [c]), es)
            == if MemberHolds(c.schema, m) then Validator(root, true, ToldAll(below + [WithMember(c, m.name)], es))
               else Dead(root)
  {
    hide Holds, OtherEvents, Begin, MemberSchema;
    var key, e, es := Key(m.name), FirstEvent(m.tree), OtherEvents(m.tree);
    var s, c1 := MemberSchema(c.schema, m.name), WithMember(c, m.name);
    var v := Validator(root, true, below + [c]);
    EventsOf(m.tree);
    assert [key] + TreeEvents(m.tree) == [key, e] + es;
    RunAppended(v, [key, e], es);
    if s.None? {
      StepOnKey(root, below, c, m.name);
      RunTwo(v, key, e);
      RunDead(root, es);
    } else {
      StepOnKey(root, below, c, m.name);
      RunTwo(v, key, e);
      StepOnMember(root, below, c1, key, e, s.value);
      ToldAllTwice(below + [c1], [key, e], es);
    }
  }

  lemma {:induction false} RunTwo(v: Validator, d: Event, e: Event)
    ensures Run(v, [d, e]) == Step(Step(v, d), e)
  {
    RunOne(Step(v, d), e);
    assert [d, e][1..] == [e];
  }

  lemma {:induction false} StepOnKey(root: Schema, below: seq<Context>, c: Context, name: Bytes)
    requires !c.inArray
    ensures Step(Validator(root, true, below + [c]), Key(name))
         == if MemberSchema(c.schema, name).None? then Dead(root)
            else Validator(root, true, ToldAll(below + [WithMember(c, name)], [Key(name)]))
  {
    var e := Key(name);
    DispatchTells(below + [c], e);
    ToldTop(below, c, [e]);
    ToldTop(below, WithMember(c, name), [e]);
    var st := ToldAll(below, [e]) + [Told(c, [e])];
    assert st[..|st| - 1] == ToldAll(below, [e]);
  }

  lemma {:induction false} StepOnMember(root: Schema, below: seq<Context>, c: Context, key: Event, e: Event, s: Schema)
    requires !c.inArray && c.valueSchema == Some(s) && (IsScalar(e) || e.StartObject? || e.StartArray?)
    ensures Step(Validator(root, true, ToldAll(below + [c], [key])), e) == Begin(root, ToldAll(below + [c], [key, e]), s, e)
  {
    DispatchTells(ToldAll(below + [c], [key]), e);
    ToldAllTwice(below + [c], [key], [e]);
    assert [key] + [e] == [key, e];
    ToldTop(below, c, [key, e]);
    var st := ToldAll(below, [key, e]) + [Told(c, [key, e])];
    assert st[..|st| - 1] == ToldAll(below, [key, e]);
  }

  lemma {:induction false} JudgesNoMembers(root: Schema, below: seq<Context>, c: Context)
    ensures Run(Validator(root, true, below + [c]), MemberEvents([]))
            == Validator(root, true, ToldAll(below + [WithMembers(c, [])], MemberEvents([])))
    ensures MembersHold(c.schema, [])
  {
    ToldNothing(below + [c]);
  }

  lemma {:induction false} MoreMembers(ms: seq<TreeMember>)
    requires ms != []
    ensures MemberEvents(ms) == [Key(ms[0].name)] + TreeEvents(ms[0].tree) + MemberEvents(ms[1..])
  {
  }

  lemma {:induction false} JudgesMembers(root: Schema, below: seq<Context>, c: Context, ms: seq<TreeMember>)
    requires !c.inArray && SchemaOk(c.schema) && forall i :: 0 <= i < |ms| ==> TreeOk(ms[i].tree)
    ensures Run(Validator(root, true, below + [c]), MemberEvents(ms))
            == if MembersHold(c.schema, ms)
               then Validator(root, true, ToldAll(below + [WithMembers(c, ms)], MemberEvents(ms)))
               else Dead(root)
    decreases ms, c.schema, 3
  {
    hide MemberHolds, MemberSchema, MemberEvents, MembersHold, SchemaOk, Begin, OtherEvents, Run, ToldAll;
    if ms == [] {
      JudgesNoMembers(root, below, c);
    } else {
      MoreMembers(ms);
      var m, es, rest := ms[0], [Key(ms[0].name)] + TreeEvents(ms[0].tree), MemberEvents(ms[1..]);
      var s := MemberSchema(c.schema, m.name);
      RunAppended(Validator(root, true, below + [c]), es, rest);
      if s.Some? {
        MemberOk(c.schema, m.name);
        JudgesValue(root, Under(below, c, m), s.value, m.tree);
      }
      JudgesMember(root, below, c, m);
      FirstMemberHolds(c.schema, ms);
      if MemberHolds(c.schema, m) {
        var c1 := WithMember(c, m.name);
        JudgesMembers(root, ToldAll(below, es), Told(c1, es), ms[1..]);
        ToldTop(below, c1, es);
        MembersOnly(c1, ms[1..], es);
        ToldMore(below, WithMembers(c1, ms[1..]), es, rest);
      } else {
        RunDead(root, rest);
      }
    }
  }

  lemma {:induction false} JudgesObject(root: Schema, below: seq<Context>, s: Schema, ms: seq<TreeMember>)
    requires SchemaOk(s) && TreeOk(Obj(ms))
    requires EndsWell(Told(Entered(s, StartObject), OtherEvents(Obj(ms)))) == Combined(s, Obj(ms))
    ensures Run(Begin(root, below, s, StartObject), OtherEvents(Obj(ms))) == After(root, below, s, Obj(ms))
    decreases ms, s, 4
  {
    hide SchemaOk, MembersHold, WithMembers, MemberEvents, Run, ToldAll, Combined, EndsWell, RequiredHolds;
    var c, es, end := Entered(s, StartObject), MemberEvents(ms), EndObject(|ms|);
    var last := WithMembers(c, ms);
    assert OtherEvents(Obj(ms)) == es + [end];
    if ObjectType !in s.types {
      assert !Own(s, Obj(ms)) && !Admits(s, StartObject);
      RunDead(root, es + [end]);
    } else {
      RunAppended(Begin(root, below, s, StartObject), es, [end]);
      JudgesMembers(root, below, c, ms);
      if MembersHold(s, ms) {
        MissingMeans(s, ms);
        MembersOnly(c, ms, []);
        ClosesValue(root, below, last, es, end);
        SameEnd(Told(last, es + [end]), Told(c, es + [end]));
        assert Holds(s, Obj(ms)) == (Closes(last, end) && Combined(s, Obj(ms)));
      } else {
        RunDead(root, [end]);
        assert !Own(s, Obj(ms));
      }
    }
  }

  // ------------------------------------------------------------ the theorem

  /** Streaming validation is sound and complete: a validator that is given the events of a whole tree ends
      valid, ready for the next one, exactly when the tree satisfies the schema. */
  lemma {:induction false} ValidatesExactly(s: Schema, t: Tree)
    requires SchemaOk(s) && TreeOk(t)
    ensures Run(Fresh(s), TreeEvents(t)) == if Holds(s, t) then Fresh(s) else Dead(s)
  {
    EventsOf(t);
    RunAppended(Fresh(s), [FirstEvent(t)], OtherEvents(t));
    RunOne(Fresh(s), FirstEvent(t));
    JudgesValue(s, [], s, t);
    assert Dispatch([], FirstEvent(t)) == [];
  }
}
