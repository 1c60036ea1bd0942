/**
 Object members with an index by name: an array of members, a multimap from names to positions and an array of the
 iterators into it.
 */
module MemberIndex {
  import opened Json
  import opened PointerAccess

  const DEFAULT_CAPACITY: nat := 16

  // ------------------------------------------------------------ the order of names

  /** Byte by byte, then the shorter first. */
  function Compare(a: Bytes, b: Bytes): int {
    if a == [] || b == [] then 0
    else
      var x: int, y: int := a[0], b[0];
      if x != y then x - y else Compare(a[1..], b[1..])
  }

  predicate Less(a: Bytes, b: Bytes) {
    Compare(a, b) < 0 || (Compare(a, b) == 0 && |a| < |b|)
  }

  /** Names that are in neither order are the same. */
  lemma {:induction false} LessIsTotal(a: Bytes, b: Bytes)
    ensures (Less(a, b) && !Less(b, a) && a != b) || (!Less(a, b) && Less(b, a) && a != b) || (!Less(a, b) && !Less(b, a) && a == b)
    decreases |a|
  {
    if a != [] && b != [] && a[0] == b[0] {
      LessIsTotal(a[1..], b[1..]);
      assert a == [a[0]] + a[1..] && b == [b[0]] + b[1..];
    }
  }

  lemma {:induction false} LessIsTransitive(a: Bytes, b: Bytes, c: Bytes)
    requires Less(a, b) && Less(b, c)
    ensures Less(a, c)
    decreases |a|
  {
    if a != [] && b != [] && c != [] && a[0] == b[0] && b[0] == c[0] {
      LessIsTransitive(a[1..], b[1..], c[1..]);
    }
  }

  /** At the first byte where they differ the first name has the smaller one. */
  predicate SmallerAt(a: Bytes, b: Bytes, k: nat) {
    k < |a| && k < |b| && a[..k] == b[..k] && a[k] < b[k]
  }

  /** The order of dictionaries: one name begins the other, or at the first byte where they differ it has the smaller one. */
  lemma {:induction false} LessExactly(a: Bytes, b: Bytes)
    ensures Less(a, b) <==> a < b || exists k: nat :: SmallerAt(a, b, k)
    decreases |a|
  {
    if a != [] && b != [] && a[0] == b[0] {
      hide SmallerAt;
      LessExactly(a[1..], b[1..]);
      assert a == [a[0]] + a[1..] && b == [b[0]] + b[1..];
      OneByteMore(a, b);
    } else if a != [] && b != [] && a[0] < b[0] {
      assert SmallerAt(a, b, 0);
    } else {
      FirstOfPrefix(a, b);
    }
  }

  lemma {:induction false} OneByteMore(a: Bytes, b: Bytes)
    requires a != [] && b != [] && a[0] == b[0]
    ensures (exists k: nat :: SmallerAt(a, b, k)) <==> exists k: nat :: SmallerAt(a[1..], b[1..], k)
  {
    if k: nat :| SmallerAt(a[1..], b[1..], k) {
      assert a[..k + 1] == [a[0]] + a[1..][..k] && b[..k + 1] == [b[0]] + b[1..][..k];
      assert SmallerAt(a, b, k + 1);
    }
    if k: nat :| SmallerAt(a, b, k) {
      assert a[1..][..k - 1] == a[..k][1..] && b[1..][..k - 1] == b[..k][1..];
      assert SmallerAt(a[1..], b[1..], k - 1);
    }
  }

  lemma {:induction false} FirstOfPrefix(a: Bytes, b: Bytes)
    ensures forall k :: 0 < k <= |a| && k <= |b| && a[..k] == b[..k] ==> a[0] == b[0]
  {
    forall k | 0 < k <= |a| && k <= |b| && a[..k] == b[..k] ensures a[0] == b[0] {
      assert a[0] == a[..k][0] == b[..k][0] == b[0];
    }
  }

  // ------------------------------------------------------------ members and index

  /** An entry of the multimap; an iterator is a reference to it. */
  class Entry {
    const key: Bytes
    var position: nat

    constructor (key: Bytes, position: nat)
      ensures this.key == key && this.position == position
    {
      this.key, this.position := key, position;
    }
  }

  /** The members when the `m`-th is replaced by the last. */
  function SwapRemoved(s: seq<Member>, m: nat): seq<Member>
    requires m < |s|
  {
    s[m := s[|s| - 1]][..|s| - 1]
  }

  lemma {:induction false} SwapRemovedExactly(s: seq<Member>, m: nat)
    requires m < |s|
    ensures var t := SwapRemoved(s, m);
            && |t| == |s| - 1 && (m < |t| ==> t[m] == s[|s| - 1])
            && forall i :: 0 <= i < |t| && i != m ==> t[i] == s[i]
  {
  }

  lemma {:induction false} Erased(s: seq<Member>, t: seq<Member>, first: nat, last: nat)
    requires first <= last <= |s| && |t| == |s| - (last - first)
    requires forall j :: 0 <= j < first ==> t[j] == s[j]
    requires forall j :: last <= j < |s| ==> t[j - (last - first)] == s[j]
    ensures t == s[..first] + s[last..]
  {
    forall k | first <= k < |t| ensures t[k] == s[last..][k - first] {
      var j := k + (last - first);
      assert t[j - (last - first)] == s[j];
    }
  }

  /** The entries of the map: none twice, and in the order of their names. */
  ghost predicate InOrder(entries: seq<Entry>, index: set<Entry>) {
    && (forall e :: e in entries ==> e in index) && (forall e :: e in index ==> e in entries)
    && (forall i, j :: 0 <= i < j < |entries| ==> entries[i] != entries[j] && !Less(entries[j].key, entries[i].key))
  }

  lemma {:induction false} NoneOfName(entries: seq<Entry>, name: Bytes, i: nat)
    requires i <= |entries| && (forall j :: 0 <= j < i ==> Less(entries[j].key, name))
    requires i < |entries| ==> Less(name, entries[i].key)
    requires forall j, k :: 0 <= j < k < |entries| ==> !Less(entries[k].key, entries[j].key)
    ensures forall e :: e in entries ==> e.key != name
  {
    forall j | 0 <= j < |entries| ensures entries[j].key != name {
      LessIsTotal(entries[j].key, name);
      if j > i {
        LessIsTotal(entries[i].key, name);
      }
    }
  }

  lemma {:induction false} InsertedInOrder(entries: seq<Entry>, index: set<Entry>, e: Entry, i: nat)
    requires InOrder(entries, index) && e !in index && i <= |entries|
    requires forall j :: 0 <= j < i ==> !Less(e.key, entries[j].key)
    requires i < |entries| ==> Less(e.key, entries[i].key)
    ensures InOrder(entries[..i] + [e] + entries[i..], index + {e})
  {
    hide Less;
    var r := entries[..i] + [e] + entries[i..];
    forall j | i <= j < |entries| ensures !Less(entries[j].key, e.key) {
      LessIsTotal(entries[j].key, e.key);
      if j > i && Less(entries[j].key, e.key) {
        LessIsTransitive(entries[j].key, e.key, entries[i].key);
      }
    }
    forall u | u in entries ensures u in r {
      var k :| 0 <= k < |entries| && entries[k] == u;
      assert r[if k < i then k else k + 1] == u;
    }
    assert r[i] == e;
  }

  lemma {:induction false} ErasedInOrder(entries: seq<Entry>, index: set<Entry>, i: nat)
    requires InOrder(entries, index) && i < |entries|
    ensures InOrder(entries[..i] + entries[i + 1..], index - {entries[i]})
  {
    hide Less;
    var r := entries[..i] + entries[i + 1..];
    forall j, k | 0 <= j < k < |r| ensures r[j] != r[k] && !Less(r[k].key, r[j].key) {
      assert r[j] == entries[if j < i then j else j + 1] && r[k] == entries[if k < i then k else k + 1];
    }
    forall u | u in entries && u != entries[i] ensures u in r {
      var k :| 0 <= k < |entries| && entries[k] == u;
      assert r[if k < i then k else k - 1] == u;
    }
    forall u | u in r ensures u in entries && u != entries[i] {
      var k :| 0 <= k < |r| && r[k] == u;
      assert r[k] == entries[if k < i then k else k + 1];
    }
  }

  class ObjectData {
    var members: array<Member>
    var iterators: array<Entry?>
    var size: nat
    var sorted: seq<Entry>
    ghost var index: set<Entry>

    /** The map is in order, iterators and positions are in bijection, and each entry has the name of its member. */
    ghost predicate Valid()
      reads this, members, iterators, index
    {
      && InOrder(sorted, index)
      && members.Length == iterators.Length && size <= members.Length
      && (forall i :: 0 <= i < size ==> EntryOk(i))
      && (forall e :: e in index ==> e.position < size && iterators[e.position] == e)
    }

    ghost predicate EntryOk(i: nat)
      requires i < members.Length && i < iterators.Length
      reads this, members, iterators, index
    {
      iterators[i] in index && iterators[i].position == i && iterators[i].key == members[i].name
    }

    ghost function Contents(): seq<Member>
      requires size <= members.Length
      reads this, members
    {
      members[..size]
    }

    constructor ()
      ensures Valid() && fresh(members) && fresh(iterators) && Contents() == [] && index == {}
    {
      members := new Member[0];
      iterators := new Entry?[0];
      size, sorted, index := 0, [], {};
    }

    /** The lower bound of a name in the map, if the name is there. */
    method Find(name: Bytes) returns (e: Entry?)
      requires InOrder(sorted, index)
      ensures e != null ==> e in index && e.key == name
      ensures e == null ==> forall u :: u in index ==> u.key != name
    {
      var i := 0;
      while i < |sorted| && Less(sorted[i].key, name)
        invariant i <= |sorted| && forall j :: 0 <= j < i ==> Less(sorted[j].key, name)
      {
        i := i + 1;
      }
      if i < |sorted| && !Less(name, sorted[i].key) {
        LessIsTotal(sorted[i].key, name);
        return sorted[i];
      }
      NoneOfName(sorted, name, i);
      return null;
    }

    /** Behind all that are not greater. */
    method Insert(e: Entry)
      requires InOrder(sorted, index) && e !in index
      modifies this`sorted, this`index
      ensures InOrder(sorted, index) && index == old(index) + {e}
    {
      var i := 0;
      while i < |sorted| && !Less(e.key, sorted[i].key)
        invariant i <= |sorted| && forall j :: 0 <= j < i ==> !Less(e.key, sorted[j].key)
      {
        i := i + 1;
      }
      InsertedInOrder(sorted, index, e, i);
      sorted := sorted[..i] + [e] + sorted[i..];
      index := index + {e};
    }

    method Erase(e: Entry)
      requires InOrder(sorted, index) && e in index
      modifies this`sorted, this`index
      ensures InOrder(sorted, index) && index == old(index) - {e}
    {
      var i := 0;
      while sorted[i] != e
        invariant i < |sorted| && e in sorted[i..]
        decreases |sorted| - i
      {
        assert sorted[i..] == [sorted[i]] + sorted[i + 1..];
        i := i + 1;
      }
      ErasedInOrder(sorted, index, i);
      sorted := sorted[..i] + sorted[i + 1..];
      index := index - {e};
    }

    /** Linear search. */
    method DoFindMemberLinear(name: Bytes) returns (i: nat)
      requires size <= members.Length
      ensures i == FindMember(Contents(), name)
    {
      i := 0;
      assert Contents()[i..] == Contents();
      while i < size
        invariant i <= size && FindMember(Contents(), name) == i + FindMember(Contents()[i..], name)
      {
        if members[i].name == name {
          return;
        }
        assert Contents()[i..][1..] == Contents()[i + 1..];
        i := i + 1;
      }
    }

    /** The position of any entry of that name; it is found exactly when linear search finds a member, and it is the
        same member when the names differ. */
    method DoFindMember(name: Bytes) returns (i: nat)
      requires Valid()
      ensures i <= size && (i < size ==> Contents()[i].name == name)
      ensures i < size <==> FindMember(Contents(), name) < size
      ensures DistinctNames(Contents()) ==> i == FindMember(Contents(), name)
    {
      i := AnyOfName(name);
      if DistinctNames(Contents()) && i < size {
        FindDistinct(Contents(), i);
      }
    }

    /** Any entry of that name. */
    method AnyOfName(name: Bytes) returns (i: nat)
      requires Valid()
      ensures i <= size
      ensures i < size ==> Contents()[i].name == name
      ensures i == size ==> forall j :: 0 <= j < size ==> Contents()[j].name != name
    {
      var e := Find(name);
      if e == null {
        i := size;
        forall j | 0 <= j < size ensures Contents()[j].name != name {
          assert EntryOk(j);
        }
      } else {
        i := e.position;
        assert EntryOk(i);
      }
    }
  
    /** Moves members and iterators to larger arrays. */
    method DoReserveMembers(newCapacity: nat)
      requires Valid()
      modifies this`members, this`iterators
      ensures Valid() && Contents() == old(Contents()) && members.Length == if newCapacity > old(members.Length) then newCapacity else old(members.Length)
      ensures if newCapacity > old(members.Length) then fresh(members) && fresh(iterators)
              else members == old(members) && iterators == old(iterators)
    {
      if newCapacity > members.Length {
        var newMembers := new Member[newCapacity];
        var newIterators := new Entry?[newCapacity];
        var oldMembers, oldIterators := members, iterators;
        for i := 0 to size
          invariant members == oldMembers && iterators == oldIterators
          invariant forall j :: 0 <= j < i ==> newMembers[j] == oldMembers[j]
        {
          newMembers[i] := oldMembers[i];
        }
        var count := size;
        while count > 0
          invariant 0 <= count <= size && members == oldMembers && iterators == oldIterators
          invariant forall j :: count <= j < size ==> newIterators[j] == oldIterators[j]
          invariant forall j :: 0 <= j < size ==> newMembers[j] == oldMembers[j]
        {
          count := count - 1;
          newIterators[count] := oldIterators[count];
        }
        members, iterators := newMembers, newIterators;
        forall i | 0 <= i < size ensures EntryOk(i) {
          assert old(EntryOk(i));
        }
        assert members[..size] == oldMembers[..size];
      }
    }

    method DoAddMember(name: Bytes, value: Value)
      requires Valid()
      modifies this, members, iterators
      ensures Valid() && Contents() == old(Contents()) + [Member(name, value)]
      ensures if old(size) < old(members.Length) then members == old(members) && iterators == old(iterators)
              else fresh(members) && fresh(iterators)
                   && members.Length == if old(size) == 0 then DEFAULT_CAPACITY else old(size) + (old(size) + 1) / 2
      ensures old(index) < index && fresh(index - old(index))
    {
      if size >= members.Length {
        DoReserveMembers(if members.Length != 0 then members.Length + (members.Length + 1) / 2 else DEFAULT_CAPACITY);
      }
      Append(name, value);
    }

    /** Behind the members there is room for one. */
    method Append(name: Bytes, value: Value)
      requires Valid() && size < members.Length
      modifies this`size, this`sorted, this`index, members, iterators
      ensures Valid() && Contents() == old(Contents()) + [Member(name, value)]
      ensures old(index) < index && fresh(index - old(index))
    {
      var e := new Entry(name, size);
      members[size] := Member(name, value);
      iterators[size] := e;
      Insert(e);
      size := size + 1;
      forall i | 0 <= i < size - 1 ensures EntryOk(i) {
        assert old(EntryOk(i));
      }
      assert members[..size] == old(members[..size]) + [Member(name, value)];
    }

    /** The last member takes the place of the `m`-th. */
    method DoRemoveMember(m: nat)
      requires Valid() && m < size
      modifies this`size, this`sorted, this`index, members, iterators, index
      ensures Valid() && Contents() == SwapRemoved(old(Contents()), m)
      ensures index == old(index) - {old(iterators[m])}
    {
      assert EntryOk(m);
      Erase(iterators[m]);
      var last := size - 1;
      if size > 1 && m != last {
        assert old(EntryOk(last));
        iterators[m] := iterators[last];
        iterators[m].position := m;
        members[m] := members[last];
      }
      size := size - 1;
      forall i | 0 <= i < size ensures EntryOk(i) {
        assert old(EntryOk(i)) && old(EntryOk(last));
      }
      assert members[..size] == SwapRemoved(old(members[..size]), m);
    }

    /** Erases the members from `first` up to `last`; those behind move down in order. */
    method DoEraseMembers(first: nat, last: nat)
      requires Valid() && size > 0 && first <= last <= size
      modifies this`size, this`sorted, this`index, members, iterators, index
      ensures Valid() && Contents() == old(Contents())[..first] + old(Contents())[last..]
    {
      hide Valid, EntryOk;
      CloseGap(first, last);
      Erased(old(members[..size]), members[..size], first, last);
    }

    method CloseGap(first: nat, last: nat)
      requires Valid() && first <= last <= size
      modifies this`size, this`sorted, this`index, members, iterators, index
      ensures Valid() && size == old(size) - (last - first)
      ensures size <= members.Length && old(size) <= members.Length
      ensures forall j :: 0 <= j < first ==> members[j] == old(members[j])
      ensures forall j :: last <= j < old(size) ==> members[j - (last - first)] == old(members[j])
    {
      DropEntries(first, last);
      if first != last {
        MoveDown(first, last);
      }
      size := size - (last - first);
      forall i | 0 <= i < size ensures EntryOk(i) {
        var j := if i < first then i else i + (last - first);
        assert old(EntryOk(j));
      }
      forall e | e in index ensures e.position < size && iterators[e.position] == e {
        assert e in old(index);
        assert old(e.position < size && iterators[e.position] == e);
      }
    }

    /** The entries of the members from `first` up to `last` go. */
    method DropEntries(first: nat, last: nat)
      requires Valid() && first <= last <= size
      modifies this`sorted, this`index
      ensures InOrder(sorted, index)
      ensures forall e :: e in index <==> e in old(index) && !(first <= e.position < last)
      ensures forall i :: 0 <= i < size ==> iterators[i] != null && iterators[i].position == i
      ensures forall i :: 0 <= i < first || last <= i < size ==> iterators[i] in index
    {
      for i := first to last
        invariant InOrder(sorted, index)
        invariant forall e :: e in index <==> e in old(index) && !(first <= e.position < i)
      {
        assert old(EntryOk(i));
        Erase(iterators[i]);
      }
      forall i | 0 <= i < size
        ensures iterators[i] != null && iterators[i].position == i && (i < first || last <= i ==> iterators[i] in index)
      {
        assert old(EntryOk(i));
      }
    }

    /** Members and iterators from `last` on move to `first`. */
    method MoveDown(first: nat, last: nat)
      requires first < last <= size <= members.Length == iterators.Length
      requires forall i :: 0 <= i < size ==> iterators[i] != null && iterators[i].position == i
      requires forall i :: last <= i < size ==> iterators[i] in index
      modifies members, iterators, index
      ensures forall j :: 0 <= j < first ==> members[j] == old(members[j]) && iterators[j] == old(iterators[j])
      ensures forall j :: 0 <= j < first ==> old(iterators[j]).position == j
      ensures forall j :: last <= j < size ==>
                members[j - (last - first)] == old(members[j]) && iterators[j - (last - first)] == old(iterators[j])
      ensures forall j :: last <= j < size ==> old(iterators[j]).position == j - (last - first)
    {
      hide InOrder;
      ghost var n, ms, es := last - first, members[..], iterators[..];
      for k := last to size
        invariant forall j :: 0 <= j < first || k <= j < size ==> members[j] == ms[j] && iterators[j] == es[j]
        invariant forall j :: 0 <= j < first || k <= j < size ==> es[j].position == j
        invariant forall j :: last <= j < k ==> members[j - n] == ms[j] && iterators[j - n] == es[j]
        invariant forall j :: last <= j < k ==> es[j].position == j - n
      {
        assert forall j :: 0 <= j < first || last <= j < size ==> j != k ==> es[j] != es[k];
        MoveOne(k, k - (last - first));
      }
    }

    /** One member and its iterator move down. */
    method MoveOne(k: nat, to: nat)
      requires to < k < members.Length == iterators.Length && iterators[k] != null
      modifies members, iterators, iterators[k]
      ensures forall j :: 0 <= j < members.Length && j != to ==> members[j] == old(members[j]) && iterators[j] == old(iterators[j])
      ensures members[to] == old(members[k]) && iterators[to] == old(iterators[k]) && old(iterators[k]).position == to
    {
      var e := iterators[k];
      members[to] := members[k];
      iterators[to] := e;
      e.position := to;
    }

    method DoClearMembers()
      requires Valid()
      modifies this`size, this`sorted, this`index
      ensures Valid() && Contents() == [] && index == {}
    {
      for i := 0 to size
        invariant size == old(size) && InOrder(sorted, index)
        invariant forall e :: e in index <==> e in old(index) && e.position >= i
      {
        assert old(EntryOk(i));
        Erase(iterators[i]);
      }
      size := 0;
    }
  }
}
