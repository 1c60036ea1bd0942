/**
 The schema compiler: it finds a schema for every place of a document, follows local references and terminates
 on cyclic ones.
 */
module SchemaCompile {
  import opened Options
  import opened Json
  import opened Document
  import opened Writer
  import opened JsonPointer
  import opened PointerAccess

  type Loc = seq<Token>

  /** A compiled schema is known by the place it was created for; the typeless one accepts everything. */
  datatype SchemaRef = Typeless | At(loc: Loc)

  datatype Place = Place(loc: Loc, value: Value)

  function Ascii(s: string): Bytes {
    seq(|s|, i requires 0 <= i < |s| => s[i] as int % 256)
  }

  const REF := Ascii("$ref")

  // ------------------------------------------------------------ places

  function NameToken0(name: Bytes): Token {
    Token(name, INVALID_INDEX)
  }

  function IndexToken(i: nat): Token {
    Token(DecimalText(i), i)
  }

  /** The members or elements of a value, with their pointers as the compiler appends them. */
  function Kids(loc: Loc, v: Value): (ps: seq<Place>)
    ensures forall k :: 0 <= k < |ps| ==> ps[k].value < v && |ps[k].loc| == |loc| + 1
  {
    match v
    case VObject(ms) => seq(|ms|, k requires 0 <= k < |ms| => Place(loc + [NameToken0(ms[k].name)], ms[k].value))
    case VArray(es) => seq(|es|, k requires 0 <= k < |es| => Place(loc + [IndexToken(k)], es[k]))
    case _ => []
  }

  /** The member of that name, as a place. */
  function Under(loc: Loc, ms: seq<Member>, keyword: string): seq<Place> {
    var i := FindMember(ms, Ascii(keyword));
    if i < |ms| then [Kids(loc, VObject(ms))[i]] else []
  }

  predicate IsObject(p: Place) { p.value.VObject? }

  predicate IsArray(p: Place) { p.value.VArray? }

  /** The places below `ps` that are in an array, or in an object. */
  function Inside(ps: seq<Place>, wanted: Place -> bool): seq<Place> {
    if ps != [] && wanted(ps[0]) then Kids(ps[0].loc, ps[0].value) else []
  }

  function Only(ps: seq<Place>, wanted: Place -> bool): seq<Place> {
    if ps == [] then [] else (if wanted(ps[0]) then [ps[0]] else []) + Only(ps[1..], wanted)
  }

  /** The places whose schemas the constructor of a schema asks for, in its order. */
  function SubPlaces(loc: Loc, v: Value): seq<Place>
    requires v.VObject?
  {
    var ms := v.members;
    Inside(Under(loc, ms, "allOf"), IsArray) + Inside(Under(loc, ms, "anyOf"), IsArray)
    + Inside(Under(loc, ms, "oneOf"), IsArray) + Under(loc, ms, "not")
    + Inside(Under(loc, ms, "properties"), IsObject) + Inside(Under(loc, ms, "patternProperties"), IsObject)
    + Only(Inside(Under(loc, ms, "dependencies"), IsObject), IsObject)
    + Only(Under(loc, ms, "additionalProperties"), IsObject)
    + Only(Under(loc, ms, "items"), IsObject) + Inside(Under(loc, ms, "items"), IsArray)
    + Only(Under(loc, ms, "additionalItems"), IsObject)
  }

  // ------------------------------------------------------------ the document and its references

  /** A schema document and the place where compiling starts; `resolve` says which local pointer the text of a
      reference comes to, if it is one. */
  datatype Doc = Doc(root: Value, start: Loc, resolve: Bytes -> Option<Loc>)
  {
    /** Whether the value is a reference at all. */
    predicate HasRef(v: Value) {
      v.VObject? && FindMember(v.members, REF) < |v.members|
    }

    /** The target of the reference that `v` is, if there is such a place. */
    function Target(v: Value): Option<Loc> {
      if !HasRef(v) then None
      else
        var s := v.members[FindMember(v.members, REF)].value;
        if !s.VString? || s.s == [] || resolve(s.s).None? || Get(root, resolve(s.s).value).None? then None
        else resolve(s.s)
    }

    /** Where the reference at a place leads. */
    function Next(loc: Loc): Option<Loc> {
      var v := Get(root, loc);
      if v.Some? then Target(v.value) else None
    }

    /** What a place that leads nowhere stands for. */
    function Final(loc: Loc): SchemaRef {
      var v := Get(root, loc);
      if v.Some? && v.value.VObject? && !HasRef(v.value) then At(loc) else Typeless
    }

    /** The place `n` references further. */
    function Reach(loc: Loc, n: nat): Option<Loc>
      decreases n
    {
      if n == 0 then Some(loc)
      else match Next(loc)
        case None => None
        case Some(t) => Reach(t, n - 1)
    }

    predicate EndsAfter(loc: Loc, n: nat) {
      Reach(loc, n).Some? && Next(Reach(loc, n).value).None?
    }

    /** What a place means: the end of its references; one that never ends accepts everything. */
    ghost function Meaning(loc: Loc): SchemaRef {
      if exists n: nat :: EndsAfter(loc, n) then
        var n: nat :| EndsAfter(loc, n);
        Final(Reach(loc, n).value)
      else Typeless
    }

    lemma {:induction false} EndIsUnique(loc: Loc, m: nat, n: nat)
      requires EndsAfter(loc, m) && EndsAfter(loc, n)
      ensures m == n
      decreases m
    {
      if m > 0 && n > 0 {
        EndIsUnique(Next(loc).value, m - 1, n - 1);
      }
    }

    /** A reference means what its target means. */
    lemma {:induction false} MeaningOfNext(loc: Loc)
      requires Next(loc).Some?
      ensures Meaning(loc) == Meaning(Next(loc).value)
    {
      var t := Next(loc).value;
      if n: nat :| EndsAfter(loc, n) {
        assert EndsAfter(t, n - 1);
      }
      if n: nat :| EndsAfter(t, n) {
        assert EndsAfter(loc, n + 1);
        forall m: nat | EndsAfter(loc, m) ensures m == n + 1 {
          EndIsUnique(loc, m, n + 1);
        }
        forall m: nat | EndsAfter(t, m) ensures m == n {
          EndIsUnique(t, m, n);
        }
      }
    }

    lemma {:induction false} MeaningOfEnd(loc: Loc)
      requires Next(loc).None?
      ensures Meaning(loc) == Final(loc)
    {
      assert EndsAfter(loc, 0);
      forall m: nat | EndsAfter(loc, m) ensures m == 0 {
        EndIsUnique(loc, m, 0);
      }
    }

    /** A chain of references. */
    predicate IsChain(refs: seq<Loc>) {
      forall k :: 0 <= k < |refs| - 1 ==> Next(refs[k]) == Some(refs[k + 1])
    }

    lemma {:induction false} MeaningOfChain(refs: seq<Loc>)
      requires IsChain(refs) && refs != []
      ensures forall k :: 0 <= k < |refs| ==> Meaning(refs[k]) == Meaning(refs[|refs| - 1])
      decreases |refs|
    {
      if |refs| > 1 {
        assert Next(refs[0]) == Some(refs[0 + 1]);
        MeaningOfNext(refs[0]);
        forall k | 0 <= k < |refs[1..]| - 1 ensures Next(refs[1..][k]) == Some(refs[1..][k + 1]) {
          assert Next(refs[k + 1]) == Some(refs[k + 1 + 1]);
        }
        MeaningOfChain(refs[1..]);
        forall k | 1 <= k < |refs| ensures Meaning(refs[k]) == Meaning(refs[|refs| - 1]) {
          assert refs[k] == refs[1..][k - 1];
        }
      }
    }

    /** All of a chain that leads back into itself accept everything. */
    lemma {:induction false} MeaningOfCycle(refs: seq<Loc>)
      requires IsChain(refs) && refs != [] && Next(refs[|refs| - 1]).Some? && Next(refs[|refs| - 1]).value in refs
      ensures forall k :: 0 <= k < |refs| ==> Meaning(refs[k]) == Typeless
    {
      forall k | 0 <= k < |refs| ensures Meaning(refs[k]) == Typeless {
        if n: nat :| EndsAfter(refs[k], n) {
          StaysInCycle(refs, refs[k], n);
        }
      }
    }

    lemma {:induction false} StaysInCycle(refs: seq<Loc>, loc: Loc, n: nat)
      requires IsChain(refs) && refs != [] && Next(refs[|refs| - 1]).Some? && Next(refs[|refs| - 1]).value in refs
      requires loc in refs
      ensures Reach(loc, n).Some? && Reach(loc, n).value in refs && Next(loc).Some?
      ensures !EndsAfter(loc, n)
      decreases n
    {
      var k :| 0 <= k < |refs| && refs[k] == loc;
      assert k < |refs| - 1 ==> Next(refs[k]) == Some(refs[k + 1]);
      if n > 0 {
        StaysInCycle(refs, Next(loc).value, n - 1);
      }
    }

    // ---------------------------------------------------------- the places that can be reached

    /** The tokens of the target that a reference names. */
    ghost function RefTokens(v: Value): set<Token> {
      if !HasRef(v) then {}
      else
        var s := v.members[FindMember(v.members, REF)].value;
        if s.VString? && resolve(s.s).Some? then set t | t in resolve(s.s).value else {}
    }

    /** All the tokens that lead to places inside a value or out of it by a reference. */
    ghost function TokensIn(v: Value): set<Token> {
      var ps := Kids([], v);
      RefTokens(v) + (set k | 0 <= k < |ps| :: ps[k].loc[0]) + (set k, t | 0 <= k < |ps| && t in TokensIn(ps[k].value) :: t)
    }

    ghost function Letters(): set<Token> {
      TokensIn(root) + set t | t in start
    }

    /** A place where the compiler may come: it is named by tokens of the document or of the start, no deeper than
        the document is, and, if the document is tidy, it is where its pointer leads. */
    ghost predicate InPlay(p: Place) {
      && (forall t :: t in p.loc ==> t in Letters())
      && TokensIn(p.value) <= TokensIn(root)
      && |p.loc| + Height(p.value) <= Height(root)
      && (Tidy(root) ==> Get(root, p.loc) == Some(p.value) && Tidy(p.value))
    }

    ghost predicate AllInPlay(ps: seq<Place>) {
      forall k :: 0 <= k < |ps| ==> InPlay(ps[k])
    }

    lemma {:induction false} StartInPlay()
      requires Get(root, start).Some?
      ensures InPlay(Place(start, Get(root, start).value))
    {
      GetInside(root, start);
    }

    lemma {:induction false} TokensOfKid(v: Value, k: nat)
      requires k < |Kids([], v)|
      ensures Kids([], v)[k].loc[0] in TokensIn(v) && TokensIn(Kids([], v)[k].value) <= TokensIn(v)
    {
    }

    lemma {:induction false} KidInPlay(p: Place, k: nat)
      requires InPlay(p) && k < |Kids(p.loc, p.value)|
      ensures InPlay(Kids(p.loc, p.value)[k])
    {
      hide TokensIn, Height;
      var kid, here := Kids(p.loc, p.value)[k], Kids([], p.value)[k];
      assert kid.value == here.value && kid.loc == p.loc + [here.loc[0]];
      TokensOfKid(p.value, k);
      HeightOfKid(p.value, k);
      if Tidy(root) {
        GetAppended(root, p.loc, here.loc[0]);
        TidyKid(p.value, k);
      }
    }

    lemma {:induction false} KidsInPlay(p: Place)
      requires InPlay(p)
      ensures AllInPlay(Kids(p.loc, p.value))
    {
      forall k | 0 <= k < |Kids(p.loc, p.value)| ensures InPlay(Kids(p.loc, p.value)[k]) {
        KidInPlay(p, k);
      }
    }

    lemma {:induction false} UnderInPlay(p: Place, keyword: string)
      requires InPlay(p) && p.value.VObject?
      ensures AllInPlay(Under(p.loc, p.value.members, keyword))
    {
      KidsInPlay(p);
    }

    lemma {:induction false} InsideInPlay(ps: seq<Place>, wanted: Place -> bool)
      requires AllInPlay(ps)
      ensures AllInPlay(Inside(ps, wanted))
    {
      if ps != [] {
        KidsInPlay(ps[0]);
      }
    }

    lemma {:induction false} OnlyInPlay(ps: seq<Place>, wanted: Place -> bool)
      requires AllInPlay(ps)
      ensures AllInPlay(Only(ps, wanted))
      decreases |ps|
    {
      if ps != [] {
        OnlyInPlay(ps[1..], wanted);
      }
    }

    lemma {:induction false} JoinInPlay(a: seq<Place>, b: seq<Place>)
      requires AllInPlay(a) && AllInPlay(b)
      ensures AllInPlay(a + b)
    {
    }

    /** Every place a schema asks for can be reached. */
    lemma {:induction false} SubPlacesInPlay(p: Place)
      requires InPlay(p) && p.value.VObject?
      ensures AllInPlay(SubPlaces(p.loc, p.value))
    {
      hide AllInPlay, Under, Inside, Only;
      var loc, ms := p.loc, p.value.members;
      var all := ListPlaces(p, "allOf");
      var any := ListPlaces(p, "anyOf");
      var one := ListPlaces(p, "oneOf");
      UnderInPlay(p, "not");
      JoinInPlay(all, any);
      JoinInPlay(all + any, one);
      var not := Under(loc, ms, "not");
      JoinInPlay(all + any + one, not);
      var properties := MapPlaces(p, "properties");
      var patterns := MapPlaces(p, "patternProperties");
      var dependencies := MapPlaces(p, "dependencies");
      OnlyInPlay(dependencies, IsObject);
      JoinInPlay(all + any + one + not, properties);
      JoinInPlay(all + any + one + not + properties, patterns);
      JoinInPlay(all + any + one + not + properties + patterns, Only(dependencies, IsObject));
      var so_far := all + any + one + not + properties + patterns + Only(dependencies, IsObject);
      var additional := OnePlace(p, "additionalProperties");
      var items := OnePlace(p, "items");
      var tuple := ListPlaces(p, "items");
      var others := OnePlace(p, "additionalItems");
      JoinInPlay(so_far, additional);
      JoinInPlay(so_far + additional, items);
      JoinInPlay(so_far + additional + items, tuple);
      JoinInPlay(so_far + additional + items + tuple, others);
    }

    lemma {:induction false} ListPlaces(p: Place, keyword: string) returns (ps: seq<Place>)
      requires InPlay(p) && p.value.VObject?
      ensures ps == Inside(Under(p.loc, p.value.members, keyword), IsArray) && AllInPlay(ps)
    {
      UnderInPlay(p, keyword);
      ps := Inside(Under(p.loc, p.value.members, keyword), IsArray);
      InsideInPlay(Under(p.loc, p.value.members, keyword), IsArray);
    }

    lemma {:induction false} MapPlaces(p: Place, keyword: string) returns (ps: seq<Place>)
      requires InPlay(p) && p.value.VObject?
      ensures ps == Inside(Under(p.loc, p.value.members, keyword), IsObject) && AllInPlay(ps)
    {
      UnderInPlay(p, keyword);
      ps := Inside(Under(p.loc, p.value.members, keyword), IsObject);
      InsideInPlay(Under(p.loc, p.value.members, keyword), IsObject);
    }

    lemma {:induction false} OnePlace(p: Place, keyword: string) returns (ps: seq<Place>)
      requires InPlay(p) && p.value.VObject?
      ensures ps == Only(Under(p.loc, p.value.members, keyword), IsObject) && AllInPlay(ps)
    {
      UnderInPlay(p, keyword);
      ps := Only(Under(p.loc, p.value.members, keyword), IsObject);
      OnlyInPlay(Under(p.loc, p.value.members, keyword), IsObject);
    }

    /** So can the target of a reference. */
    lemma {:induction false} TargetInPlay(p: Place)
      requires InPlay(p) && Target(p.value).Some?
      ensures InPlay(Place(Target(p.value).value, Get(root, Target(p.value).value).value))
    {
      var t := Target(p.value).value;
      assert forall x :: x in t ==> x in RefTokens(p.value);
      assert RefTokens(p.value) <= TokensIn(p.value);
      GetInside(root, t);
    }

    lemma {:induction false} GetInside(v: Value, p: Loc)
      requires Get(v, p).Some?
      ensures var w := Get(v, p).value;
              |p| + Height(w) <= Height(v) && TokensIn(w) <= TokensIn(v) && (Tidy(v) ==> Tidy(w))
      decreases |p|
    {
      hide TokensIn, Height;
      if p != [] {
        var k := KidOfChild(v, p[0]);
        TokensOfKid(v, k);
        HeightOfKid(v, k);
        if Tidy(v) {
          TidyKid(v, k);
        }
        GetInside(Child(v, p[0]).value, p[1..]);
      }
    }

    /** The places in play are finitely many. */
    lemma {:induction false} InPlayIsFinite(p: Place)
      requires InPlay(p)
      ensures p.loc in Words(Letters(), Height(root))
    {
      IsWord(Letters(), Height(root), p.loc);
    }
  }

  // ------------------------------------------------------------ size of values

  /** How many tokens a pointer into a value can have. */
  ghost function Height(v: Value): nat
    decreases v, 0
  {
    if Kids([], v) == [] then 0 else 1 + MaxHeight(v, Kids([], v))
  }

  ghost function MaxHeight(v: Value, ps: seq<Place>): (h: nat)
    requires forall k :: 0 <= k < |ps| ==> ps[k].value < v
    ensures forall k :: 0 <= k < |ps| ==> Height(ps[k].value) <= h
    decreases v, 0, |ps|
  {
    if ps == [] then 0
    else
      var h := MaxHeight(v, ps[1..]);
      assert forall k :: 1 <= k < |ps| ==> ps[k] == ps[1..][k - 1];
      if Height(ps[0].value) > h then Height(ps[0].value) else h
  }

  lemma {:induction false} HeightOfKid(v: Value, k: nat)
    requires k < |Kids([], v)|
    ensures 1 + Height(Kids([], v)[k].value) <= Height(v)
  {
  }

  /** Names within an object differ, and arrays are no longer than 32 bits can count. */
  predicate Tidy(v: Value) {
    && (v.VObject? ==> DistinctNames(v.members))
    && (v.VArray? ==> |v.elems| <= INVALID_INDEX)
    && forall k :: 0 <= k < |Kids([], v)| ==> Tidy(Kids([], v)[k].value)
  }

  /** In a tidy value the compiler's token for a child leads to it. */
  lemma {:induction false} TidyKid(v: Value, k: nat)
    requires Tidy(v) && k < |Kids([], v)|
    ensures Child(v, Kids([], v)[k].loc[0]) == Some(Kids([], v)[k].value) && Tidy(Kids([], v)[k].value)
  {
    if v.VObject? {
      FindDistinct(v.members, k);
    }
  }

  lemma {:induction false} KidOfChild(v: Value, t: Token) returns (k: nat)
    requires Child(v, t).Some?
    ensures k < |Kids([], v)| && Kids([], v)[k].value == Child(v, t).value
  {
    k := if v.VObject? then FindMember(v.members, t.name) else t.index;
  }

  /** The words of at most `n` letters. */
  ghost function Words(letters: set<Token>, n: nat): set<Loc> {
    if n == 0 then {[]} else {[]} + set t, w | t in letters && w in Words(letters, n - 1) :: [t] + w
  }

  lemma {:induction false} IsWord(letters: set<Token>, n: nat, w: Loc)
    requires |w| <= n && forall t :: t in w ==> t in letters
    ensures w in Words(letters, n)
    decreases n
  {
    if w != [] {
      IsWord(letters, n - 1, w[1..]);
      assert w == [w[0]] + w[1..];
    }
  }
}
