/** The events of an accepted parse are those of one value: well nested, with true counts. */
module Nesting {
  import opened Json
  import opened ReaderSpec

  /** What an accepted value, or the rest of an array or object, has added to the events. */
  predicate Added(before: seq<Event>, r: Outcome, es: seq<Event>) {
    r.Ok? && r.evs == before + es
  }

  predicate AllWellFormed(ts: seq<Tree>) {
    forall i :: 0 <= i < |ts| ==> WellFormed(ts[i])
  }

  predicate AllMembersWellFormed(ms: seq<TreeMember>) {
    forall i :: 0 <= i < |ms| ==> WellFormed(ms[i].tree)
  }

  lemma {:induction false} ValIsTree(input: Input, p: nat, evs: seq<Event>) returns (t: Tree)
    requires p <= |input.src| && input.Val(p, evs).Ok?
    ensures WellFormed(t) && Added(evs, input.Val(p, evs), TreeEvents(t))
    decreases |input.src| - p, 2
  {
    hide Input.Val, Input.ObjectBody, Input.ArrayBody;
    var c := input.Peek(p);
    if c == LBRACE {
      ValIsObject(input, p, evs);
      var ms := ObjectBodyIsTree(input, p + 1, evs + [StartObject]);
      t := Obj(ms);
      assert evs + [StartObject] + (MemberEvents(ms) + [EndObject(|ms|)]) == evs + TreeEvents(t);
    } else if c == LBRACKET {
      ValIsArray(input, p, evs);
      var ts := ArrayBodyIsTree(input, p + 1, evs + [StartArray]);
      t := Arr(ts);
      assert evs + [StartArray] + (ElemEvents(ts) + [EndArray(|ts|)]) == evs + TreeEvents(t);
    } else {
      ScalarIsLeaf(input, p, evs);
      t := Leaf(input.Val(p, evs).evs[|evs|]);
    }
  }

  lemma {:induction false} ValIsObject(input: Input, p: nat, evs: seq<Event>)
    requires p <= |input.src| && input.Val(p, evs).Ok? && input.Peek(p) == LBRACE
    ensures p < |input.src| && input.Val(p, evs) == input.ObjectBody(p + 1, evs + [StartObject])
  {
    hide Input.ObjectBody;
  }

  lemma {:induction false} ValIsArray(input: Input, p: nat, evs: seq<Event>)
    requires p <= |input.src| && input.Val(p, evs).Ok? && input.Peek(p) == LBRACKET
    ensures p < |input.src| && input.Val(p, evs) == input.ArrayBody(p + 1, evs + [StartArray])
  {
    hide Input.ArrayBody;
  }

  lemma {:induction false} ScalarIsLeaf(input: Input, p: nat, evs: seq<Event>)
    requires p <= |input.src| && input.Val(p, evs).Ok? && input.Peek(p) != LBRACE && input.Peek(p) != LBRACKET
    ensures var r := input.Val(p, evs);
            |r.evs| == |evs| + 1 && r.evs == evs + [r.evs[|evs|]] && IsScalar(r.evs[|evs|])
  {
  }

  lemma {:induction false} ArrayBodyIsTree(input: Input, p: nat, evs: seq<Event>) returns (ts: seq<Tree>)
    requires p <= |input.src| && input.ArrayBody(p, evs).Ok?
    ensures AllWellFormed(ts) && Added(evs, input.ArrayBody(p, evs), ElemEvents(ts) + [EndArray(|ts|)])
    decreases |input.src| - p, 4
  {
    var q := input.SkipWs(p);
    if input.Peek(q) == RBRACKET {
      ts := [];
    } else {
      ts := ElementsAreTrees(input, q, 0, evs);
    }
  }

  lemma {:induction false} ElementsAreTrees(input: Input, p: nat, n: nat, evs: seq<Event>) returns (ts: seq<Tree>)
    requires p <= |input.src| && input.Elements(p, n, evs).Ok?
    ensures AllWellFormed(ts) && Added(evs, input.Elements(p, n, evs), ElemEvents(ts) + [EndArray(n + |ts|)])
    decreases |input.src| - p, 3
  {
    var t := ValIsTree(input, p, evs);
    var r := input.Val(p, evs);
    var rest := AfterElementAreTrees(input, r.pos, n + 1, r.evs);
    ts := [t] + rest;
    assert ts[1..] == rest;
  }

  lemma {:induction false} AfterElementAreTrees(input: Input, p: nat, n: nat, evs: seq<Event>) returns (ts: seq<Tree>)
    requires p <= |input.src| && input.AfterElement(p, n, evs).Ok?
    ensures AllWellFormed(ts) && Added(evs, input.AfterElement(p, n, evs), ElemEvents(ts) + [EndArray(n + |ts|)])
    decreases |input.src| - p, 1
  {
    var q := input.SkipWs(p);
    ts := [];
    if input.Peek(q) == COMMA {
      assert input.AfterElement(p, n, evs) == input.AfterElementComma(q + 1, n, evs);
      var s := input.SkipWs(q + 1);
      if !(input.trailingCommas && input.Peek(s) == RBRACKET) {
        ts := ElementsAreTrees(input, s, n, evs);
      }
    }
  }

  lemma {:induction false} ObjectBodyIsTree(input: Input, p: nat, evs: seq<Event>) returns (ms: seq<TreeMember>)
    requires p <= |input.src| && input.ObjectBody(p, evs).Ok?
    ensures AllMembersWellFormed(ms) && Added(evs, input.ObjectBody(p, evs), MemberEvents(ms) + [EndObject(|ms|)])
    decreases |input.src| - p, 4
  {
    hide Input.Members;
    var q := input.SkipWs(p);
    if input.Peek(q) == RBRACE {
      ms := [];
    } else {
      ms := MembersAreTrees(input, q, 0, evs);
    }
  }

  lemma {:induction false} MembersAreTrees(input: Input, p: nat, n: nat, evs: seq<Event>) returns (ms: seq<TreeMember>)
    requires p <= |input.src| && input.Members(p, n, evs).Ok?
    ensures AllMembersWellFormed(ms) && Added(evs, input.Members(p, n, evs), MemberEvents(ms) + [EndObject(n + |ms|)])
    decreases |input.src| - p, 3
  {
    hide Input.AfterMember, Input.Val;
    var name, before, s, r := MemberSteps(input, p, n, evs);
    var t := ValIsTree(input, s, before);
    var rest := AfterMemberAreTrees(input, r.pos, n + 1, r.evs);
    ms := [TreeMember(name, t)] + rest;
    assert ms[1..] == rest;
    Regroup(evs, [Key(name)], TreeEvents(t), MemberEvents(rest), [EndObject(n + |ms|)]);
  }

  /** The key of a member, and the outcome of its value at `s`. */
  lemma {:induction false} MemberSteps(input: Input, p: nat, n: nat, evs: seq<Event>)
      returns (name: Bytes, before: seq<Event>, s: nat, r: Outcome)
    requires p <= |input.src| && input.Members(p, n, evs).Ok?
    ensures p < s <= |input.src| && before == evs + [Key(name)] && r == input.Val(s, before)
    ensures r.Ok? && s < r.pos <= |input.src| && input.Members(p, n, evs) == input.AfterMember(r.pos, n + 1, r.evs)
  {
    var k := input.Str(p, evs, true);
    assert input.Members(p, n, evs) == input.AfterKey(k.pos, n, k.evs);
    var q := input.SkipWs(k.pos);
    assert input.Members(p, n, evs) == input.AfterColon(q + 1, n, k.evs);
    s := input.SkipWs(q + 1);
    name, before, r := k.evs[|evs|].s, k.evs, input.Val(s, k.evs);
  }

  lemma {:induction false} Regroup(a: seq<Event>, b: seq<Event>, c: seq<Event>, d: seq<Event>, e: seq<Event>)
    ensures a + b + c + (d + e) == a + (b + c + d + e)
  {
  }

  lemma {:induction false} AfterMemberAreTrees(input: Input, p: nat, n: nat, evs: seq<Event>) returns (ms: seq<TreeMember>)
    requires p <= |input.src| && input.AfterMember(p, n, evs).Ok?
    ensures AllMembersWellFormed(ms) && Added(evs, input.AfterMember(p, n, evs), MemberEvents(ms) + [EndObject(n + |ms|)])
    decreases |input.src| - p, 1
  {
    var q := input.SkipWs(p);
    ms := [];
    if input.Peek(q) == COMMA {
      assert input.AfterMember(p, n, evs) == input.AfterMemberComma(q + 1, n, evs);
      var s := input.SkipWs(q + 1);
      if !(input.trailingCommas && input.Peek(s) == RBRACE) {
        ms := MembersAreTrees(input, s, n, evs);
      }
    }
  }

  /** Every accepted text, whatever the flags and the handler, has sent the events of exactly one value. */
  lemma {:induction false} AcceptedTextIsOneValue(input: Input, p: nat)
    requires p <= |input.src| && input.Document(p, []).Ok?
    ensures exists t :: WellFormed(t) && input.Document(p, []).evs == TreeEvents(t)
  {
    var t := ValIsTree(input, input.SkipWs(p), []);
    assert [] + TreeEvents(t) == TreeEvents(t);
  }
}
