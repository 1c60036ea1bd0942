/** Compiling a schema document: the two stacks of the compiler and the recursion over places and references. */
module SchemaDocument {
  import opened Options
  import opened Json
  import opened Document
  import opened JsonPointer
  import opened PointerAccess
  import opened SchemaCompile

  datatype Entry = Entry(loc: Loc, schema: SchemaRef)

  function Locs(es: seq<Entry>): set<Loc> {
    set k | 0 <= k < |es| :: es[k].loc
  }

  function Refs(locs: seq<Loc>): set<Loc> {
    set k | 0 <= k < |locs| :: locs[k]
  }

  lemma {:induction false} LocsAppended(es: seq<Entry>, e: Entry)
    ensures Locs(es + [e]) == Locs(es) + {e.loc}
  {
    assert (es + [e])[|es|] == e;
    forall k | 0 <= k < |es| ensures es[k].loc in Locs(es + [e]) {
      assert (es + [e])[k] == es[k];
    }
  }

  lemma {:induction false} InRefs(locs: seq<Loc>)
    ensures forall loc :: loc in locs <==> loc in Refs(locs)
  {
  }

  lemma {:induction false} NoRefs()
    ensures Refs([]) == {}
  {
  }

  lemma {:induction false} RefsAppended(locs: seq<Loc>, loc: Loc)
    ensures Refs(locs + [loc]) == Refs(locs) + {loc}
  {
    assert (locs + [loc])[|locs|] == loc;
    forall k | 0 <= k < |locs| ensures locs[k] in Refs(locs + [loc]) {
      assert (locs + [loc])[k] == locs[k];
    }
  }

  /** No place twice. */
  predicate Distinct(locs: seq<Loc>) {
    forall i, j :: 0 <= i < j < |locs| ==> locs[i] != locs[j]
  }

  /** The schemas that the schema at `loc` refers to are those that the places in it mean. */
  ghost predicate LinksMean(doc: Doc, loc: Loc, refs: seq<SchemaRef>) {
    var v := Get(doc.root, loc);
    && v.Some? && v.value.VObject? && |refs| == |SubPlaces(loc, v.value)|
    && forall k :: 0 <= k < |refs| ==> refs[k] == doc.Meaning(SubPlaces(loc, v.value)[k].loc)
  }

  class GenericSchemaDocument {
    const doc: Doc
    var schemaMap: seq<Entry>
    var schemaRef: seq<Loc>
    var links: map<Loc, seq<SchemaRef>>
    var root: SchemaRef
    ghost var open: set<Loc>  // the places of schemas under construction

    ghost function Universe(): set<Loc> {
      Words(doc.Letters(), Height(doc.root))
    }

    ghost function Unmapped(): set<Loc>
      reads this
    {
      Universe() - Locs(schemaMap)
    }

    ghost function Unreferred(): set<Loc>
      reads this
    {
      Universe() - Refs(schemaRef)
    }

    /** No place is mapped twice, none waits that is mapped, the waiting ones form a chain of references; in a tidy
        document every mapped place has the schema that it means. */
    ghost predicate Valid()
      reads this
    {
      && Distinct(schemaRef)
      && (forall k :: 0 <= k < |schemaRef| ==> schemaRef[k] !in Locs(schemaMap))
      && (forall i, j :: 0 <= i < j < |schemaMap| ==> schemaMap[i].loc != schemaMap[j].loc)
      && (Tidy(doc.root) ==>
            && doc.IsChain(schemaRef)
            && (forall k :: 0 <= k < |schemaMap| ==> schemaMap[k].schema == doc.Meaning(schemaMap[k].loc)))
    }

    /** A schema that is finished or under construction. */
    ghost predicate Built(sc: SchemaRef)
      reads this
    {
      sc.At? ==> sc.loc in links.Keys + open
    }

    /** The schemas that a schema refers to are those its places mean, and every schema that is mapped or referred to is
        either finished or under construction. */
    ghost predicate Linked()
      reads this
    {
      && (Tidy(doc.root) ==> forall loc :: loc in links ==> LinksMean(doc, loc, links[loc]))
      && (forall k :: 0 <= k < |schemaMap| ==> Built(schemaMap[k].schema))
      && (forall loc, k :: loc in links && 0 <= k < |links[loc]| ==> Built(links[loc][k]))
      && open <= Locs(schemaMap)
    }

    /** Schemas stay what they are when others are built. */
    twostate predicate BuiltMore()
      reads this
    {
      old(links).Keys <= links.Keys && open == old(open)
    }

    /** Every waiting place leads to `loc`. */
    ghost predicate LeadsTo(loc: Loc)
      reads this
    {
      Tidy(doc.root) && schemaRef != [] ==> doc.Next(schemaRef[|schemaRef| - 1]) == Some(loc)
    }

    /** The schema of a mapped place. */
    method GetSchema(loc: Loc) returns (sc: Option<SchemaRef>)
      ensures sc.Some? <==> loc in Locs(schemaMap)
      ensures sc.Some? ==> Entry(loc, sc.value) in schemaMap
    {
      for k := 0 to |schemaMap|
        invariant forall i :: 0 <= i < k ==> schemaMap[i].loc != loc
      {
        if schemaMap[k].loc == loc {
          return Some(schemaMap[k].schema);
        }
      }
      return None;
    }

    method IsCyclicRef(loc: Loc) returns (cyclic: bool)
      ensures cyclic <==> loc in schemaRef
    {
      for k := 0 to |schemaRef|
        invariant forall i :: 0 <= i < k ==> schemaRef[i] != loc
      {
        if schemaRef[k] == loc {
          return true;
        }
      }
      return false;
    }

    /** Maps the last place that waits. */
    method MapLast(sc: SchemaRef)
      requires Valid() && Linked() && schemaRef != [] && Built(sc)
      requires Tidy(doc.root) ==> doc.Meaning(schemaRef[|schemaRef| - 1]) == sc
      modifies this`schemaMap, this`schemaRef
      ensures Valid() && Linked()
      ensures var last := old(schemaRef[|schemaRef| - 1]);
              schemaRef == old(schemaRef[..|schemaRef| - 1]) && schemaMap == old(schemaMap) + [Entry(last, sc)]
    {
      hide Doc.Meaning, Tidy, LinksMean;
      var last := schemaRef[|schemaRef| - 1];
      LocsAppended(schemaMap, Entry(last, sc));
      schemaRef := schemaRef[..|schemaRef| - 1];
      schemaMap := schemaMap + [Entry(last, sc)];
    }

    /** Maps all the places that wait to one schema. */
    method AddSchemaRefs(sc: SchemaRef)
      requires Valid() && Linked() && Built(sc)
      requires Tidy(doc.root) ==> forall k :: 0 <= k < |schemaRef| ==> doc.Meaning(schemaRef[k]) == sc
      modifies this`schemaMap, this`schemaRef
      ensures Valid() && Linked() && schemaRef == []
      ensures old(schemaMap) <= schemaMap
      ensures Locs(schemaMap) == Locs(old(schemaMap)) + Refs(old(schemaRef))
    {
      hide Valid, Linked, Doc.Meaning, Tidy, Locs, Refs;
      while schemaRef != []
        invariant Valid() && Linked() && schemaRef <= old(schemaRef) && old(schemaMap) <= schemaMap
        invariant Locs(schemaMap) + Refs(schemaRef) == Locs(old(schemaMap)) + Refs(old(schemaRef))
        decreases |schemaRef|
      {
        var rest, last := schemaRef[..|schemaRef| - 1], schemaRef[|schemaRef| - 1];
        assert schemaRef == rest + [last];
        assert last == old(schemaRef)[|rest|];
        RefsAppended(rest, last);
        LocsAppended(schemaMap, Entry(last, sc));
        MapLast(sc);
      }
      NoRefs();
    }

    /** The schema for a place, creating it if there is none. What waited is mapped to it too. */
    method CreateSchema(p: Place) returns (sc: SchemaRef)
      requires Valid() && Linked() && doc.InPlay(p) && p.loc !in schemaRef && LeadsTo(p.loc)
      modifies this`schemaMap, this`schemaRef, this`links, this`open
      ensures Valid() && Linked() && schemaRef == [] && old(schemaMap) <= schemaMap && BuiltMore() && Built(sc)
      ensures Refs(old(schemaRef)) <= Locs(schemaMap) && (p.value.VObject? ==> p.loc in Locs(schemaMap))
      ensures Tidy(doc.root) ==> sc == doc.Meaning(p.loc)
      decreases Unmapped(), Unreferred(), 2
    {
      hide Valid, Linked, Doc.TokensIn, Height, Words, SubPlaces, Doc.Meaning, Tidy;
      if p.value.VObject? {
        var found := GetSchema(p.loc);
        if found.Some? {
          sc := found.value;
          MappedMeans(p.loc, sc);
          WaitingMean(p.loc);
          AddSchemaRefs(sc);
        } else {
          var handled;
          handled, sc := HandleRefSchema(p);
          if !handled {
            OpenIsMapped();
            sc := NewSchema(p);
          }
        }
      } else {
        sc := Typeless;
        WaitingMean(p.loc);
        OtherMeansNothing(p);
        AddSchemaRefs(sc);
      }
    }

    lemma {:induction false} OpenIsMapped()
      requires Linked()
      ensures open <= Locs(schemaMap)
    {
    }

    lemma {:induction false} MappedMeans(loc: Loc, sc: SchemaRef)
      requires Valid() && Linked() && Entry(loc, sc) in schemaMap
      ensures Built(sc) && (Tidy(doc.root) ==> sc == doc.Meaning(loc))
    {
      hide LinksMean, Tidy, Doc.Meaning;
      var k :| 0 <= k < |schemaMap| && schemaMap[k] == Entry(loc, sc);
      assert Built(schemaMap[k].schema);
    }

    lemma {:induction false} OtherMeansNothing(p: Place)
      requires doc.InPlay(p) && !p.value.VObject?
      ensures Tidy(doc.root) ==> doc.Meaning(p.loc) == Typeless
    {
      hide Doc.TokensIn, Height, Doc.Meaning;
      if Tidy(doc.root) {
        doc.MeaningOfEnd(p.loc);
      }
    }

    /** What waits means what the place means to which it leads. */
    lemma {:induction false} WaitingMean(loc: Loc)
      requires Valid() && LeadsTo(loc)
      ensures Tidy(doc.root) ==> forall k :: 0 <= k < |schemaRef| ==> doc.Meaning(schemaRef[k]) == doc.Meaning(loc)
    {
      if Tidy(doc.root) && schemaRef != [] {
        doc.MeaningOfChain(schemaRef);
        doc.MeaningOfNext(schemaRef[|schemaRef| - 1]);
      }
    }

    /** A value that is a reference: it waits, and its target is compiled; a reference that is invalid, unknown or
        leads back to what waits already is typeless, and so is all that waits. */
    method HandleRefSchema(p: Place) returns (handled: bool, sc: SchemaRef)
      requires Valid() && Linked() && doc.InPlay(p) && p.loc !in schemaRef && LeadsTo(p.loc)
      requires p.value.VObject? && p.loc !in Locs(schemaMap)
      modifies this`schemaMap, this`schemaRef, this`links, this`open
      ensures handled == doc.HasRef(p.value)
      ensures !handled ==> schemaMap == old(schemaMap) && schemaRef == old(schemaRef) && links == old(links) && open == old(open)
      ensures handled ==>
                && Valid() && Linked() && schemaRef == [] && old(schemaMap) <= schemaMap && BuiltMore() && Built(sc)
                && Refs(old(schemaRef)) + {p.loc} <= Locs(schemaMap)
                && (Tidy(doc.root) ==> sc == doc.Meaning(p.loc))
      decreases Unmapped(), Unreferred(), 1
    {
      hide Valid, Doc.TokensIn, Height, Words, SubPlaces, Doc.Meaning, Tidy, Linked, LinksMean;
      if !doc.HasRef(p.value) {
        return false, Typeless;
      }
      PushRef(p);
      handled := true;
      var found;
      found, sc := FollowRef(p);
      if !found {
        DeadEnd(p);
        AddSchemaRefs(sc);
      }
    }

    /** Compiles the target of the reference that waits last, unless there is none or it waits too. */
    method FollowRef(p: Place) returns (found: bool, sc: SchemaRef)
      requires Valid() && Linked() && doc.InPlay(p) && doc.HasRef(p.value)
      requires schemaRef != [] && schemaRef[|schemaRef| - 1] == p.loc
      modifies this`schemaMap, this`schemaRef, this`links, this`open
      ensures found ==>
                && Valid() && Linked() && schemaRef == [] && old(schemaMap) <= schemaMap && BuiltMore() && Built(sc)
                && Refs(old(schemaRef)) <= Locs(schemaMap)
                && (Tidy(doc.root) ==> sc == doc.Meaning(p.loc))
      ensures !found ==>
                && (doc.Target(p.value).None? || doc.Target(p.value).value in schemaRef)
                && sc == Typeless && schemaMap == old(schemaMap) && schemaRef == old(schemaRef)
                && links == old(links) && open == old(open)
      decreases Unmapped(), Unreferred(), 3
    {
      hide Doc.TokensIn, Height, Words, SubPlaces, Doc.Meaning, Tidy, Linked, LinksMean;
      found, sc := false, Typeless;
      var s := p.value.members[FindMember(p.value.members, REF)].value;
      if s.VString? && |s.s| != 0 && doc.resolve(s.s).Some? {
        var target := doc.resolve(s.s).value;
        var v, _ := Resolve(doc.root, target);
        if v.Some? {
          var cyclic := IsCyclicRef(target);
          if !cyclic {
            doc.TargetInPlay(p);
            found := true;
            sc := CreateSchema(Place(target, v.value));
            if Tidy(doc.root) {
              doc.MeaningOfNext(p.loc);
            }
          }
        }
      }
    }

    /** The place of a reference waits. */
    method PushRef(p: Place)
      requires Valid() && Linked() && doc.InPlay(p) && p.loc !in schemaRef && LeadsTo(p.loc) && p.loc !in Locs(schemaMap)
      modifies this`schemaRef
      ensures Valid() && Linked() && schemaRef == old(schemaRef) + [p.loc] && Refs(schemaRef) == old(Refs(schemaRef)) + {p.loc}
      ensures p.loc in Universe() && p.loc !in old(Refs(schemaRef))
    {
      hide Tidy, Doc.Meaning, Doc.TokensIn, Height, Words, SubPlaces, Get, LinksMean, Refs;
      doc.InPlayIsFinite(p);
      RefsAppended(schemaRef, p.loc);
      InRefs(schemaRef);
      schemaRef := schemaRef + [p.loc];
    }

    /** A reference without a target, or with one that waits, ends a chain that means nothing. */
    lemma {:induction false} DeadEnd(p: Place)
      requires Valid() && doc.InPlay(p) && doc.HasRef(p.value) && schemaRef != [] && schemaRef[|schemaRef| - 1] == p.loc
      requires doc.Target(p.value).None? || doc.Target(p.value).value in schemaRef
      ensures Tidy(doc.root) ==> forall k :: 0 <= k < |schemaRef| ==> doc.Meaning(schemaRef[k]) == Typeless
    {
      hide Distinct, Locs, Doc.TokensIn, Height, Doc.Meaning;
      if Tidy(doc.root) {
        if doc.Target(p.value).None? {
          doc.MeaningOfEnd(p.loc);
          doc.MeaningOfChain(schemaRef);
        } else {
          doc.MeaningOfCycle(schemaRef);
        }
      }
    }

    method MapNew(p: Place)
      requires Valid() && Linked() && doc.InPlay(p) && p.loc !in schemaRef && LeadsTo(p.loc)
      requires p.value.VObject? && !doc.HasRef(p.value) && p.loc !in Locs(schemaMap)
      modifies this`schemaMap, this`schemaRef, this`open
      ensures Valid() && Linked() && schemaRef == [] && old(schemaMap) <= schemaMap && open == old(open) + {p.loc}
      ensures Locs(schemaMap) == old(Locs(schemaMap)) + {p.loc} + Refs(old(schemaRef))
      ensures p.loc in Universe() && (Tidy(doc.root) ==> doc.Meaning(p.loc) == At(p.loc))
    {
      hide Valid, Linked, Doc.TokensIn, Height, Words, Doc.Meaning, Tidy, Refs, Locs;
      doc.InPlayIsFinite(p);
      NewMeansItself(p);
      WaitingMean(p.loc);
      MapItself(p);
      AddSchemaRefs(At(p.loc));
    }

    lemma {:induction false} NewMeansItself(p: Place)
      requires doc.InPlay(p) && p.value.VObject? && !doc.HasRef(p.value)
      ensures Tidy(doc.root) ==> doc.Meaning(p.loc) == At(p.loc)
    {
      hide Doc.TokensIn, Height, Doc.Meaning;
      if Tidy(doc.root) {
        doc.MeaningOfEnd(p.loc);
      }
    }

    method MapItself(p: Place)
      requires Valid() && Linked() && p.loc !in schemaRef && p.loc !in Locs(schemaMap)
      requires Tidy(doc.root) ==> doc.Meaning(p.loc) == At(p.loc)
      modifies this`schemaMap, this`open
      ensures Valid() && Linked() && open == old(open) + {p.loc} && schemaMap == old(schemaMap) + [Entry(p.loc, At(p.loc))]
      ensures Locs(schemaMap) == old(Locs(schemaMap)) + {p.loc}
    {
      hide SubPlaces, LinksMean, Tidy, Doc.Meaning;
      LocsAppended(schemaMap, Entry(p.loc, At(p.loc)));
      open := open + {p.loc};
      schemaMap := schemaMap + [Entry(p.loc, At(p.loc))];
    }

    /** A new schema: it is mapped, with all that waits, before the schemas inside it are asked for. */
    method NewSchema(p: Place) returns (sc: SchemaRef)
      requires Valid() && Linked() && doc.InPlay(p) && p.loc !in schemaRef && LeadsTo(p.loc)
      requires p.value.VObject? && !doc.HasRef(p.value) && p.loc !in Locs(schemaMap) && p.loc !in open
      modifies this`schemaMap, this`schemaRef, this`links, this`open
      ensures Valid() && Linked() && schemaRef == [] && old(schemaMap) <= schemaMap && BuiltMore() && Built(sc)
      ensures Refs(old(schemaRef)) + {p.loc} <= Locs(schemaMap)
      ensures Tidy(doc.root) ==> sc == doc.Meaning(p.loc)
      decreases Unmapped(), Unreferred(), 0
    {
      hide SubPlaces, Valid, Linked, Locs, Refs, Words;
      sc := At(p.loc);
      MapNew(p);
      doc.SubPlacesInPlay(p);
      var subs := CreateAll(SubPlaces(p.loc, p.value));
      Finish(p, subs);
    }

    method Finish(p: Place, subs: seq<SchemaRef>)
      requires Valid() && Linked() && doc.InPlay(p) && p.value.VObject? && |subs| == |SubPlaces(p.loc, p.value)|
      requires Tidy(doc.root) ==> forall k :: 0 <= k < |subs| ==> subs[k] == doc.Meaning(SubPlaces(p.loc, p.value)[k].loc)
      requires forall k :: 0 <= k < |subs| ==> Built(subs[k])
      modifies this`links, this`open
      ensures Valid() && Linked() && open == old(open) - {p.loc} && links.Keys == old(links).Keys + {p.loc}
    {
      hide Doc.Meaning, Doc.TokensIn, Height, SubPlaces, Get, Distinct, Locs;
      assert Tidy(doc.root) ==> LinksMean(doc, p.loc, subs);
      hide Tidy, LinksMean;
      links := links[p.loc := subs];
      open := open - {p.loc};
    }

    method CreateAll(places: seq<Place>) returns (subs: seq<SchemaRef>)
      requires Valid() && Linked() && doc.AllInPlay(places) && schemaRef == []
      modifies this`schemaMap, this`schemaRef, this`links, this`open
      ensures Valid() && Linked() && schemaRef == [] && old(schemaMap) <= schemaMap && BuiltMore()
      ensures Locs(old(schemaMap)) <= Locs(schemaMap)
      ensures |subs| == |places| && forall k :: 0 <= k < |subs| ==> Built(subs[k])
      ensures Tidy(doc.root) ==> forall k :: 0 <= k < |subs| ==> subs[k] == doc.Meaning(places[k].loc)
      decreases Unmapped(), Unreferred(), 3
    {
      hide Valid, Linked, Locs, Words, Doc.TokensIn, Height, Tidy, Doc.Meaning, Doc.InPlay;
      subs := [];
      for k := 0 to |places|
        invariant Valid() && Linked() && schemaRef == [] && old(schemaMap) <= schemaMap && BuiltMore()
        invariant Locs(old(schemaMap)) <= Locs(schemaMap)
        invariant |subs| == k && forall k :: 0 <= k < |subs| ==> Built(subs[k])
        invariant Tidy(doc.root) ==> forall k :: 0 <= k < |subs| ==> subs[k] == doc.Meaning(places[k].loc)
      {
        ghost var before := schemaMap;
        var sub := CreateSchema(places[k]);
        LocsOfPrefix(before, schemaMap);
        subs := subs + [sub];
      }
    }
  
    /** A schema for every place inside a value. */
    method CreateSchemaRecursive(p: Place) returns (sc: SchemaRef)
      requires Valid() && Linked() && doc.InPlay(p) && schemaRef == []
      modifies this`schemaMap, this`schemaRef, this`links, this`open
      ensures Valid() && Linked() && schemaRef == [] && old(schemaMap) <= schemaMap && BuiltMore() && Built(sc)
      ensures AllMapped(p.loc, p.value, Locs(schemaMap))
      ensures p.value.VObject? && Tidy(doc.root) ==> sc == doc.Meaning(p.loc)
      ensures !p.value.VObject? ==> sc == Typeless
      decreases p.value
    {
      hide Valid, Linked, Doc.TokensIn, Doc.Meaning, Height, Tidy, Locs;
      sc := Typeless;
      if p.value.VObject? {
        sc := CreateSchema(p);
      }
      var kids := Kids(p.loc, p.value);
      doc.KidsInPlay(p);
      for k := 0 to |kids|
        invariant Valid() && Linked() && schemaRef == [] && old(schemaMap) <= schemaMap && BuiltMore() && Built(sc)
        invariant p.value.VObject? ==> p.loc in Locs(schemaMap)
        invariant forall i :: 0 <= i < k ==> AllMapped(kids[i].loc, kids[i].value, Locs(schemaMap))
      {
        ghost var before := schemaMap;
        var _ := CreateSchemaRecursive(kids[k]);
        LocsOfPrefix(before, schemaMap);
        forall i | 0 <= i < k ensures AllMapped(kids[i].loc, kids[i].value, Locs(schemaMap)) {
          StillMapped(kids[i].loc, kids[i].value, Locs(before), Locs(schemaMap));
        }
      }
    }

    /** Compiling a document ends, cyclic references or not. Nothing waits or is under construction then; in a tidy
        document every mapped place has the schema that it means, and so has every schema that a schema refers to;
        a compilation from the root has mapped the place of every object. */
    constructor (doc: Doc)
      ensures this.doc == doc && Valid() && Linked() && schemaRef == [] && open == {} && Built(root)
      ensures doc.start == [] ==> AllMapped([], doc.root, Locs(schemaMap))
      ensures Tidy(doc.root) ==> root == doc.Meaning(doc.start)
    {
      hide Doc.TokensIn, Height, Words, SubPlaces, Doc.Meaning, Tidy, LinksMean;
      this.doc := doc;
      schemaMap, schemaRef, links, root, open := [], [], map[], Typeless, {};
      new;
      root := Compile();
    }

    /** Compiles from the start on. */
    method Compile() returns (sc: SchemaRef)
      requires Valid() && Linked() && schemaRef == [] && open == {}
      modifies this`schemaMap, this`schemaRef, this`links, this`open
      ensures Valid() && Linked() && schemaRef == [] && open == {} && Built(sc)
      ensures doc.start == [] ==> AllMapped([], doc.root, Locs(schemaMap))
      ensures Tidy(doc.root) ==> sc == doc.Meaning(doc.start)
    {
      hide Valid, Linked, Locs, Doc.TokensIn, Height, Words, SubPlaces, Doc.Meaning, Tidy;
      sc := Typeless;
      var v, _ := Resolve(doc.root, doc.start);
      if v.Some? {
        doc.StartInPlay();
        if Tidy(doc.root) && !v.value.VObject? {
          doc.MeaningOfEnd(doc.start);
        }
        if |doc.start| == 0 {
          sc := CreateSchemaRecursive(Place([], doc.root));
        } else {
          sc := CreateSchema(Place(doc.start, v.value));
        }
      } else {
        doc.MeaningOfEnd(doc.start);
      }
    }
  }

  /** All objects inside a value are mapped. */
  ghost predicate AllMapped(loc: Loc, v: Value, mapped: set<Loc>)
    decreases v
  {
    && (v.VObject? ==> loc in mapped)
    && forall k :: 0 <= k < |Kids(loc, v)| ==> AllMapped(Kids(loc, v)[k].loc, Kids(loc, v)[k].value, mapped)
  }

  lemma {:induction false} StillMapped(loc: Loc, v: Value, a: set<Loc>, b: set<Loc>)
    requires AllMapped(loc, v, a) && a <= b
    ensures AllMapped(loc, v, b)
    decreases v
  {
    forall k | 0 <= k < |Kids(loc, v)| ensures AllMapped(Kids(loc, v)[k].loc, Kids(loc, v)[k].value, b) {
      StillMapped(Kids(loc, v)[k].loc, Kids(loc, v)[k].value, a, b);
    }
  }

  lemma {:induction false} LocsOfPrefix(es: seq<Entry>, fs: seq<Entry>)
    requires es <= fs
    ensures Locs(es) <= Locs(fs)
  {
    forall k | 0 <= k < |es| ensures es[k].loc in Locs(fs) {
      assert fs[k] == es[k];
    }
  }
}
