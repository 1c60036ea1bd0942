/**
 Creating the value a pointer leads to in a tree of objects: containers are retyped and filled up where they stand,
 and what is handed out is a reference into the tree.
 */
module PointerInPlace {
  import opened Options
  import opened Json
  import opened JsonPointer
  import opened PointerAccess

  // ------------------------------------------------------------ one token on values

  /** A container with room for the child of a token, where the child is, and whether it was there before. */
  datatype Prepared = Prepared(root: Value, i: nat, exist: bool)

  function Prepare(v: Value, t: Token): (r: Prepared)
    ensures r.i < KidCount(r.root) && (r.root.VArray? || r.root.VObject?)
  {
    if v.VArray? && IsDash(t) then Prepared(VArray(v.elems + [VNull]), |v.elems|, false)
    else match Retyped(v, t)
      case VArray(es) => Prepared(VArray(Padded(es, t.index)), t.index, t.index < |es|)
      case VObject(ms) =>
        var i := FindMember(ms, t.name);
        if i < |ms| then Prepared(VObject(ms), i, true) else Prepared(VObject(ms + [Member(t.name, VNull)]), i, false)
  }

  function KidCount(v: Value): nat {
    if v.VArray? then |v.elems| else if v.VObject? then |v.members| else 0
  }

  function Kid(v: Value, i: nat): Value
    requires i < KidCount(v)
  {
    if v.VArray? then v.elems[i] else v.members[i].value
  }

  function SetKid(v: Value, i: nat, w: Value): (r: Value)
    requires i < KidCount(v)
    ensures KidCount(r) == KidCount(v) && Kid(r, i) == w
  {
    if v.VArray? then VArray(v.elems[i := w]) else VObject(v.members[i := Member(v.members[i].name, w)])
  }

  /** Creation prepares the container and goes on in the child. */
  lemma {:induction false} CreateInSteps(v: Value, p: seq<Token>)
    requires p != []
    ensures var s := Prepare(v, p[0]);
            var c := Create(Kid(s.root, s.i), p[1..]);
            Create(v, p) == Created(SetKid(s.root, s.i, c.root), s.exist && c.exist, c.value)
  {
    hide Create;
    if v.VArray? && IsDash(p[0]) {
      DashUnfolds(v, p);
    } else {
      CreateUnfolds(v, p);
    }
  }

  lemma {:induction false} Arrived(v: Value)
    ensures Create(v, []) == Created(v, true, v)
  {
  }

  lemma {:induction false} DashUnfolds(v: Value, p: seq<Token>)
    requires p != [] && v.VArray? && IsDash(p[0])
    ensures var c := Create(VNull, p[1..]); Create(v, p) == Created(VArray(v.elems + [c.root]), false, c.value)
  {
  }

  /** Where a token leads in a container. */
  function IndexIn(v: Value, t: Token): Option<nat> {
    match v
    case VArray(es) => if t.index != INVALID_INDEX && t.index < |es| then Some(t.index) else None
    case VObject(ms) => if FindMember(ms, t.name) < |ms| then Some(FindMember(ms, t.name)) else None
    case _ => None
  }

  /** It is the prepared child, whatever that becomes, unless the token is a "-" at an array. */
  lemma {:induction false} LeadsToPrepared(v: Value, t: Token, w: Value)
    requires !(v.VArray? && IsDash(t))
    ensures var s := Prepare(v, t);
            IndexIn(SetKid(s.root, s.i, w), t) == Some(s.i) && Kid(s.root, s.i) == Next(v, t)
  {
    hide FindMember, Padded;
    match Retyped(v, t)
    case VArray(es) =>
      PaddedWithNulls(es, t.index);
    case VObject(ms) =>
      var i := FindMember(ms, t.name);
      if i < |ms| {
        FindUpdated(ms, i, w, t.name);
      } else {
        FindAppended(ms, Member(t.name, w), t.name);
      }
  }

  lemma {:induction false} LeadsOn(v: Value, p: seq<Token>, w: Value)
    requires p != [] && !MeetsDash(v, p)
    ensures var s := Prepare(v, p[0]);
            IndexIn(SetKid(s.root, s.i, w), p[0]) == Some(s.i) && !MeetsDash(Kid(s.root, s.i), p[1..])
  {
    LeadsToPrepared(v, p[0], w);
  }

  // ------------------------------------------------------------ the tree of objects

  /** A value with a place of its own. `kind` is the value of a scalar, and the empty container for a container,
      whose children are objects. */
  class Node {
    var kind: Value
    var names: seq<Bytes>
    var kids: seq<Node>
    ghost var model: Value
    ghost var repr: set<object>

    /** No object of the tree is in it twice, and `model` is the value of the tree. */
    ghost predicate Valid()
      reads this, repr
      decreases repr
    {
      && this in repr && KidCount(model) == |kids|
      && (forall i :: 0 <= i < |kids| ==>
            && kids[i] in repr && kids[i].repr <= repr && this !in kids[i].repr
            && kids[i].Valid() && Kid(model, i) == kids[i].model)
      && (forall i, j :: 0 <= i < j < |kids| ==> kids[i].repr !! kids[j].repr)
      && (kind.VArray? <==> model.VArray?) && (kind.VObject? <==> model.VObject?)
      && (kind.VArray? || kind.VObject? || model == kind)
      && (model.VObject? ==> |names| == |kids| && forall i :: 0 <= i < |kids| ==> names[i] == model.members[i].name)
    }

    constructor ()
      ensures Valid() && fresh(repr) && model == VNull && kids == []
    {
      kind, names, kids := VNull, [], [];
      model, repr := VNull, {this};
    }

    /** The object a pointer leads to. */
    ghost function NodeAt(p: seq<Token>): Option<Node>
      requires Valid()
      reads this, repr
      decreases |p|
    {
      if p == [] then Some(this)
      else match IndexIn(model, p[0])
        case None => None
        case Some(i) => kids[i].NodeAt(p[1..])
    }

    /** An empty container, whatever there was before. */
    method Become(container: Value)
      requires Valid() && (container == VArray([]) || container == VObject([]))
      modifies this
      ensures Valid() && model == container && kids == [] && repr == old(repr)
    {
      kind, names, kids, model := container, [], [], container;
    }

    /** One more null at the end of an array. */
    method PushBack()
      requires Valid() && model.VArray?
      modifies this
      ensures Valid() && fresh(repr - old(repr)) && model == VArray(old(model).elems + [VNull]) && old(kids) <= kids
    {
      var n := new Node();
      kids := kids + [n];
      model := VArray(model.elems + [VNull]);
      repr := repr + n.repr;
    }

    /** One more member with null for its value. */
    method AddMember(name: Bytes)
      requires Valid() && model.VObject?
      modifies this
      ensures Valid() && fresh(repr - old(repr)) && model == VObject(old(model).members + [Member(name, VNull)])
      ensures old(kids) <= kids
    {
      var n := new Node();
      kids, names := kids + [n], names + [name];
      model := VObject(model.members + [Member(name, VNull)]);
      repr := repr + n.repr;
    }

    /** Linear search. */
    method FindName(name: Bytes) returns (i: nat)
      requires Valid() && model.VObject?
      ensures i == FindMember(model.members, name)
    {
      i := 0;
      ghost var ms := model.members;
      assert ms[i..] == ms;
      while i < |names|
        invariant i <= |ms| && FindMember(ms, name) == i + FindMember(ms[i..], name)
      {
        if names[i] == name {
          return;
        }
        assert ms[i..][1..] == ms[i + 1..];
        i := i + 1;
      }
    }

    /** Elements up to an index. */
    method Fill(index: nat)
      requires Valid() && model.VArray?
      modifies this
      ensures Valid() && fresh(repr - old(repr)) && model == VArray(Padded(old(model).elems, index))
    {
      while index >= |kids|
        invariant Valid() && fresh(repr - old(repr)) && model.VArray?
        invariant Padded(model.elems, index) == Padded(old(model).elems, index)
        decreases index + 1 - |kids|
      {
        PushBack();
      }
    }

    /** Retypes and fills up this container for a token. */
    method MakeRoom(t: Token) returns (i: nat, exist: bool)
      requires Valid()
      modifies this
      ensures Valid() && fresh(repr - old(repr)) && Prepared(model, i, exist) == Prepare(old(model), t)
    {
      if kind.VArray? && t.name == [MINUS] {
        i := |kids|;
        PushBack();
        return i, false;
      }
      if t.index == INVALID_INDEX {
        if !kind.VObject? {
          Become(VObject([]));
        }
      } else if !kind.VArray? && !kind.VObject? {
        Become(VArray([]));
      }
      if kind.VArray? {
        exist := t.index < |kids|;
        Fill(t.index);
        return t.index, exist;
      }
      i := FindName(t.name);
      exist := i < |kids|;
      if !exist {
        AddMember(t.name);
      }
    }

    /** Creates in this tree what the pointer leads to and hands out the object that is there: the tree becomes the
        one of `PointerAccess.Create`, and the pointer leads to the object unless a "-" met an array. */
    method Create(p: seq<Token>) returns (r: Node, exist: bool)
      requires Valid()
      modifies repr
      ensures Valid() && fresh(repr - old(repr)) && r in repr && r.repr <= repr && r.Valid()
      ensures Created(model, exist, r.model) == PointerAccess.Create(old(model), p)
      ensures !MeetsDash(old(model), p) ==> NodeAt(p) == Some(r)
      decreases |p|
    {
      hide Prepare, IndexIn, MeetsDash, SetKid, Kid, KidCount, PointerAccess.Create;
      if p == [] {
        assert PointerAccess.Create(model, p) == Created(model, true, model) by { Arrived(model); }
        return this, true;
      }
      CreateInSteps(model, p);
      ghost var before := model;
      var i, here := MakeRoom(p[0]);
      var kid := kids[i];
      ghost var room := model;
      r, exist := kid.Create(p[1..]);
      Regain(i, room);
      exist := exist && here;
      if !MeetsDash(before, p) {
        LeadsOn(before, p, kid.model);
      }
    }

    /** After the `i`-th child has changed. */
    ghost method Regain(i: nat, room: Value)
      requires this in repr && KidCount(room) == |kids| && i < |kids| && model == room
      requires forall k :: 0 <= k < |kids| ==>
                 && kids[k] in repr + kids[i].repr && kids[k].repr <= repr + kids[i].repr && this !in kids[k].repr
                 && kids[k].Valid() && (k != i ==> Kid(room, k) == kids[k].model)
      requires forall k, j :: 0 <= k < j < |kids| ==> kids[k].repr !! kids[j].repr
      requires (kind.VArray? <==> room.VArray?) && (kind.VObject? <==> room.VObject?) && (kind.VArray? || kind.VObject?)
      requires room.VObject? ==> |names| == |kids| && forall k :: 0 <= k < |kids| ==> names[k] == room.members[k].name
      modifies this`model, this`repr
      ensures Valid() && model == SetKid(room, i, kids[i].model) && repr == old(repr) + kids[i].repr
    {
      model := SetKid(room, i, kids[i].model);
      repr := repr + kids[i].repr;
    }
  }
}
