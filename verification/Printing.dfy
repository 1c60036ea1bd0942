/** Replaying a value into the writer prints the text of the value. */
module Printing {
  import opened Options
  import opened Json
  import opened Nesting
  import opened Document
  import opened Writer

  /** The text of a value. */
  function ValueText(v: Value): Bytes {
    AcceptTreeStandsForValue(v);
    TreeText(AcceptTree(v))
  }

  /** Behind a whole value, where it had to stand. */
  function Behind(s: State, v: Value): State {
    Put(Prefixed(s), ValueText(v))
  }

  function Trees(vs: seq<Value>): (ts: seq<Tree>)
    ensures AllWellFormed(ts) && |ts| == |vs|
  {
    forall i | 0 <= i < |vs| ensures WellFormed(AcceptTree(vs[i])) {
      AcceptTreeStandsForValue(vs[i]);
    }
    seq(|vs|, i requires 0 <= i < |vs| => AcceptTree(vs[i]))
  }

  function MemberTrees(ms: seq<Member>): (ts: seq<TreeMember>)
    ensures AllMembersWellFormed(ts) && |ts| == |ms|
  {
    forall i | 0 <= i < |ms| ensures WellFormed(AcceptTree(ms[i].value)) {
      AcceptTreeStandsForValue(ms[i].value);
    }
    seq(|ms|, i requires 0 <= i < |ms| => TreeMember(ms[i].name, AcceptTree(ms[i].value)))
  }

  lemma {:induction false} ElemsTextAppended(ts: seq<Tree>, t: Tree, n: nat)
    requires AllWellFormed(ts) && WellFormed(t)
    ensures AllWellFormed(ts + [t])
    ensures ElemsText(ts + [t], n) == ElemsText(ts, n) + ((if n + |ts| == 0 then [] else [COMMA]) + TreeText(t))
  {
    if ts == [] {
      assert [t][1..] == [];
    } else {
      assert (ts + [t])[1..] == ts[1..] + [t];
      ElemsTextAppended(ts[1..], t, n + 1);
      Assoc((if n == 0 then [] else [COMMA]) + TreeText(ts[0]), ElemsText(ts[1..], n + 1), [COMMA] + TreeText(t));
    }
  }

  lemma {:induction false} MembersTextAppended(ms: seq<TreeMember>, m: TreeMember, n: nat)
    requires AllMembersWellFormed(ms) && WellFormed(m.tree)
    ensures AllMembersWellFormed(ms + [m])
    ensures MembersText(ms + [m], n) == MembersText(ms, n) + ((if n + |ms| == 0 then [] else [COMMA]) + MemberText(m))
  {
    if ms == [] {
      assert [m][1..] == [];
    } else {
      assert (ms + [m])[1..] == ms[1..] + [m];
      MembersTextAppended(ms[1..], m, n + 1);
      Assoc((if n == 0 then [] else [COMMA]) + MemberText(ms[0]), MembersText(ms[1..], n + 1), [COMMA] + MemberText(m));
    }
  }

  /** In the array that was opened in state `s`, behind the first `i` of `elems`. */
  function InArray(s: State, elems: seq<Value>, i: nat): State
    requires i <= |elems|
  {
    var open := Opened(s, true);
    State(open.os + ElemsText(Trees(elems[..i]), 0), Prefixed(s).levels + [Level(i, true)], open.hasRoot)
  }

  /** In the object that was opened in state `s`, behind the first `i` of `members`. */
  function InObject(s: State, members: seq<Member>, i: nat): State
    requires i <= |members|
  {
    var open := Opened(s, false);
    State(open.os + MembersText(MemberTrees(members[..i]), 0), Prefixed(s).levels + [Level(2 * i, false)], open.hasRoot)
  }

  lemma {:induction false} TextOfFirstElements(elems: seq<Value>, i: nat)
    requires i < |elems|
    ensures ElemsText(Trees(elems[..i + 1]), 0)
         == ElemsText(Trees(elems[..i]), 0) + ((if i == 0 then [] else [COMMA]) + ValueText(elems[i]))
  {
    AcceptTreeStandsForValue(elems[i]);
    ElemsTextAppended(Trees(elems[..i]), AcceptTree(elems[i]), 0);
    assert Trees(elems[..i + 1]) == Trees(elems[..i]) + [AcceptTree(elems[i])];
  }

  lemma {:induction false} TextOfFirstMembers(members: seq<Member>, i: nat)
    requires i < |members|
    ensures MembersText(MemberTrees(members[..i + 1]), 0)
         == MembersText(MemberTrees(members[..i]), 0)
            + ((if i == 0 then [] else [COMMA]) + (StringText(members[i].name) + [COLON] + ValueText(members[i].value)))
  {
    AcceptTreeStandsForValue(members[i].value);
    var m := TreeMember(members[i].name, AcceptTree(members[i].value));
    MembersTextAppended(MemberTrees(members[..i]), m, 0);
    assert MemberTrees(members[..i + 1]) == MemberTrees(members[..i]) + [m];
  }

  lemma {:induction false} ElementPrinted(s: State, elems: seq<Value>, i: nat)
    requires i < |elems|
    ensures var p := InArray(s, elems, i); CanPrefix(p, false) && Behind(p, elems[i]) == InArray(s, elems, i + 1)
  {
    hide ValueText, ElemsText, AcceptTree;
    var comma, text := if i == 0 then [] else [COMMA], ElemsText(Trees(elems[..i]), 0);
    TopOf(Prefixed(s).levels, Level(i, true), Level(i + 1, true));
    TextOfFirstElements(elems, i);
    Assoc(Opened(s, true).os + text, comma, ValueText(elems[i]));
    Assoc(Opened(s, true).os, text, comma + ValueText(elems[i]));
  }

  /** Behind the name of the `i`-th member. */
  function AfterName(s: State, members: seq<Member>, i: nat): State
    requires i < |members|
  {
    Put(Prefixed(InObject(s, members, i)), StringText(members[i].name))
  }

  lemma {:induction false} BeforeName(os: Bytes, levels: seq<Level>, i: nat, root: bool)
    ensures var p := State(os, levels + [Level(2 * i, false)], root);
            && CanPrefix(p, true)
            && Prefixed(p) == State(os + (if i == 0 then [] else [COMMA]), levels + [Level(2 * i + 1, false)], root)
  {
    TopOf(levels, Level(2 * i, false), Level(2 * i + 1, false));
    assert os + [] == os;
  }

  lemma {:induction false} NamePrinted(s: State, members: seq<Member>, i: nat)
    requires i < |members|
    ensures CanPrefix(InObject(s, members, i), true)
    ensures var open := Opened(s, false);
            AfterName(s, members, i)
            == State(open.os + MembersText(MemberTrees(members[..i]), 0) + (if i == 0 then [] else [COMMA])
                     + StringText(members[i].name), Prefixed(s).levels + [Level(2 * i + 1, false)], open.hasRoot)
  {
    var open := Opened(s, false);
    BeforeName(open.os + MembersText(MemberTrees(members[..i]), 0), Prefixed(s).levels, i, open.hasRoot);
  }

  lemma {:induction false} MemberPrinted(s: State, members: seq<Member>, i: nat)
    requires i < |members|
    ensures var p := AfterName(s, members, i);
            CanPrefix(p, false) && Behind(p, members[i].value) == InObject(s, members, i + 1)
  {
    hide ValueText, MembersText, AcceptTree, StringText;
    var comma, text := if i == 0 then [] else [COMMA], MembersText(MemberTrees(members[..i]), 0);
    var os, key := Opened(s, false).os, StringText(members[i].name);
    NamePrinted(s, members, i);
    TopOf(Prefixed(s).levels, Level(2 * i + 1, false), Level(2 * (i + 1), false));
    TextOfFirstMembers(members, i);
    KeyAndValue(os + text, comma, key, ValueText(members[i].value));
    Assoc(os, text, comma + (key + [COLON] + ValueText(members[i].value)));
  }

  lemma {:induction false} ArrayClosed(s: State, elems: seq<Value>)
    ensures Write(InArray(s, elems, |elems|), EndArray(|elems|)) == Some(Behind(s, VArray(elems)))
  {
    assert elems[..|elems|] == elems;
    var text := ElemsText(Trees(elems), 0);
    TopOf(Prefixed(s).levels, Level(|elems|, true), Level(|elems|, true));
    assert AcceptTree(VArray(elems)).elems == Trees(elems);
    Assoc(Prefixed(s).os, [LBRACKET], text);
    Assoc(Prefixed(s).os, [LBRACKET] + text, [RBRACKET]);
  }

  lemma {:induction false} ObjectClosed(s: State, members: seq<Member>)
    ensures Write(InObject(s, members, |members|), EndObject(|members|)) == Some(Behind(s, VObject(members)))
  {
    assert members[..|members|] == members;
    var text := MembersText(MemberTrees(members), 0);
    TopOf(Prefixed(s).levels, Level(2 * |members|, false), Level(0, false));
    assert AcceptTree(VObject(members)).members == MemberTrees(members);
    Assoc(Prefixed(s).os, [LBRACE], text);
    Assoc(Prefixed(s).os, [LBRACE] + text, [RBRACE]);
  }

  /** Replays `v` to the writer: what it prints is the text of `v` behind the separator of its place. */
  method Accept(v: Value, w: JsonWriter)
    requires CanPrefix(w.Now(), false)
    modifies w
    ensures w.Now() == Behind(old(w.Now()), v)
    decreases v
  {
    match v {
      case VArray(elems) => AcceptArray(elems, w);
      case VObject(members) => AcceptObject(members, w);
      case VString(s) => w.StringOrKey(Event.String(s));
      case VNull => w.Scalar(Event.Null);
      case VBool(b) => w.Scalar(Event.Bool(b));
      case VInt(n) => w.Scalar(AcceptInt(n));
      case VDouble(l) => w.Scalar(Event.Double(l));
    }
  }

  method AcceptArray(elems: seq<Value>, w: JsonWriter)
    requires CanPrefix(w.Now(), false)
    modifies w
    ensures w.Now() == Behind(old(w.Now()), VArray(elems))
    decreases elems
  {
    w.StartArray();
    ghost var s := old(w.Now());
    assert Opened(s, true).os + [] == Opened(s, true).os;
    for i := 0 to |elems|
      invariant w.Now() == InArray(s, elems, i)
    {
      ElementPrinted(s, elems, i);
      Accept(elems[i], w);
    }
    ArrayClosed(s, elems);
    w.EndArray(|elems|);
  }

  method AcceptObject(members: seq<Member>, w: JsonWriter)
    requires CanPrefix(w.Now(), false)
    modifies w
    ensures w.Now() == Behind(old(w.Now()), VObject(members))
    decreases members, 1
  {
    w.StartObject();
    ghost var s := old(w.Now());
    assert Opened(s, false).os + [] == Opened(s, false).os;
    for i := 0 to |members|
      invariant w.Now() == InObject(s, members, i)
    {
      NamePrinted(s, members, i);
      MemberPrinted(s, members, i);
      AcceptMember(members, i, w);
    }
    ObjectClosed(s, members);
    w.EndObject(|members|);
  }

  method AcceptMember(members: seq<Member>, i: nat, w: JsonWriter)
    requires i < |members| && CanPrefix(w.Now(), true)
    requires CanPrefix(Put(Prefixed(w.Now()), StringText(members[i].name)), false)
    modifies w
    ensures w.Now() == Behind(Put(Prefixed(old(w.Now())), StringText(members[i].name)), members[i].value)
    decreases members, 0
  {
    w.StringOrKey(Event.Key(members[i].name));
    Accept(members[i].value, w);
  }

  /** Printing a whole document. */
  method Print(v: Value) returns (text: Bytes)
    ensures text == ValueText(v)
  {
    var w := new JsonWriter();
    Accept(v, w);
    assert w.IsComplete();
    text := w.os;
    assert [] + ValueText(v) == ValueText(v);
  }
}
