/**
 URIs: dot segments are removed in place, which is what section 5.2.4 of RFC 3986 asks for paths that begin with a
 slash, and references are resolved as section 5.2.2 asks.
 */
module Uri {
  import opened Json

  // ------------------------------------------------------------ removing dot segments, as the program does

  /** How long the first segment is. */
  function SegmentLength(s: Bytes): (n: nat)
    ensures n <= |s| && (n < |s| ==> s[n] == SOLIDUS)
    ensures forall k :: 0 <= k < n ==> s[k] != SOLIDUS
  {
    if s == [] || s[0] == SOLIDUS then 0 else 1 + SegmentLength(s[1..])
  }

  /** The position behind the last slash before `n`. */
  function AfterLastSlash(s: Bytes, n: nat): (k: nat)
    requires n <= |s|
    ensures k <= n && (k > 0 ==> s[k - 1] == SOLIDUS)
    ensures forall i :: k <= i < n ==> s[i] != SOLIDUS
  {
    if n == 0 || s[n - 1] == SOLIDUS then n else AfterLastSlash(s, n - 1)
  }

  /** The new path without its last segment, unless it is the first. */
  function Backup(out: Bytes): (r: Bytes)
    ensures r <= out
  {
    if |out| > 1 then out[..AfterLastSlash(out, |out| - 1)] else out
  }

  const ONE_DOT: Bytes := [DOT]
  const TWO_DOTS: Bytes := [DOT, DOT]

  /** The new path so far and what is left of the old one. */
  function Clean(out: Bytes, rest: Bytes): Bytes
    decreases |rest|
  {
    if rest == [] then out
    else
      var n := SegmentLength(rest);
      var slash := if n < |rest| then [SOLIDUS] else [];
      var more := if n < |rest| then rest[n + 1..] else [];
      if rest[..n] == TWO_DOTS then Clean(Backup(out), more)
      else if rest[..n] == ONE_DOT then Clean(out, more)
      else Clean(out + rest[..n] + slash, more)
  }

  function Normal(path: Bytes): Bytes {
    Clean([], path)
  }

  // ------------------------------------------------------------ removing dot segments, by the standard

  predicate StartsWith(s: Bytes, prefix: Bytes) {
    prefix <= s
  }

  /** The output without its last segment and the slash in front of that, if any. */
  function RemoveLast(out: Bytes): Bytes {
    var k := AfterLastSlash(out, |out|);
    if k == 0 then [] else out[..k - 1]
  }

  /** Steps 2A to 2E. */
  function RemoveDots(input: Bytes, output: Bytes): Bytes
    decreases |input|
  {
    if input == [] then output
    else if StartsWith(input, [DOT, DOT, SOLIDUS]) then RemoveDots(input[3..], output)
    else if StartsWith(input, [DOT, SOLIDUS]) then RemoveDots(input[2..], output)
    else if StartsWith(input, [SOLIDUS, DOT, SOLIDUS]) then RemoveDots(input[2..], output)
    else if input == [SOLIDUS, DOT] then RemoveDots([SOLIDUS], output)
    else if StartsWith(input, [SOLIDUS, DOT, DOT, SOLIDUS]) then RemoveDots(input[3..], RemoveLast(output))
    else if input == [SOLIDUS, DOT, DOT] then RemoveDots([SOLIDUS], RemoveLast(output))
    else if input == [DOT] || input == [DOT, DOT] then RemoveDots([], output)
    else
      var n := if input[0] == SOLIDUS then 1 + SegmentLength(input[1..]) else SegmentLength(input);
      RemoveDots(input[n..], output + input[..n])
  }

  // ------------------------------------------------------------ they agree

  /** Backing up behind a slash is removing the last segment, as long as the path began with a slash. */
  lemma {:induction false} BackupRemovesLast(o: Bytes)
    requires o == [] || o[0] == SOLIDUS
    ensures Backup(o + [SOLIDUS]) == RemoveLast(o) + [SOLIDUS]
    ensures RemoveLast(o) == [] || RemoveLast(o)[0] == SOLIDUS
  {
    var out := o + [SOLIDUS];
    if o != [] {
      SameLastSlash(out, o, |o|);
      var k := AfterLastSlash(o, |o|);
      assert k > 0;
      assert out[..k] == o[..k - 1] + [SOLIDUS];
    }
  }

  lemma {:induction false} SameLastSlash(s: Bytes, t: Bytes, n: nat)
    requires n <= |s| && n <= |t| && s[..n] == t[..n]
    ensures AfterLastSlash(s, n) == AfterLastSlash(t, n)
  {
    if n > 0 {
      assert s[n - 1] == s[..n][n - 1] == t[..n][n - 1] == t[n - 1];
      assert s[..n - 1] == s[..n][..n - 1] == t[..n][..n - 1] == t[..n - 1];
      SameLastSlash(s, t, n - 1);
    }
  }

  /** The segment behind a slash is one or two dots exactly when the standard's steps for those apply. */
  lemma {:induction false} DotsInFront(rest: Bytes)
    ensures var n, input := SegmentLength(rest), [SOLIDUS] + rest;
            && (rest[..n] == ONE_DOT && n < |rest| <==> StartsWith(input, [SOLIDUS, DOT, SOLIDUS]))
            && (rest[..n] == ONE_DOT && n == |rest| <==> input == [SOLIDUS, DOT])
            && (rest[..n] == TWO_DOTS && n < |rest| <==> StartsWith(input, [SOLIDUS, DOT, DOT, SOLIDUS]))
            && (rest[..n] == TWO_DOTS && n == |rest| <==> input == [SOLIDUS, DOT, DOT])
  {
    var n, input := SegmentLength(rest), [SOLIDUS] + rest;
    assert forall k :: 0 <= k < |rest| ==> input[k + 1] == rest[k];
    if rest[..n] == ONE_DOT {
      assert rest[0] == rest[..n][0];
    }
    if rest[..n] == TWO_DOTS {
      assert rest[0] == rest[..n][0] && rest[1] == rest[..n][1];
    }
    if StartsWith(input, [SOLIDUS, DOT, SOLIDUS]) || input == [SOLIDUS, DOT] {
      assert input[1] == rest[0] && (|input| > 2 ==> input[2] == rest[1]);
      assert rest[..n] == ONE_DOT;
    }
    if StartsWith(input, [SOLIDUS, DOT, DOT, SOLIDUS]) || input == [SOLIDUS, DOT, DOT] {
      assert input[1] == rest[0] && input[2] == rest[1] && (|input| > 3 ==> input[3] == rest[2]);
      assert rest[..n] == TWO_DOTS;
    }
  }

  /** The steps that apply to an input that begins with a slash. */
  lemma {:induction false} StepAtSlash(input: Bytes, o: Bytes)
    requires input != [] && input[0] == SOLIDUS
    ensures RemoveDots(input, o)
            == if StartsWith(input, [SOLIDUS, DOT, SOLIDUS]) then RemoveDots(input[2..], o)
               else if input == [SOLIDUS, DOT] then RemoveDots([SOLIDUS], o)
               else if StartsWith(input, [SOLIDUS, DOT, DOT, SOLIDUS]) then RemoveDots(input[3..], RemoveLast(o))
               else if input == [SOLIDUS, DOT, DOT] then RemoveDots([SOLIDUS], RemoveLast(o))
               else RemoveDots(input[1 + SegmentLength(input[1..])..], o + input[..1 + SegmentLength(input[1..])])
  {
    hide SegmentLength, RemoveLast, StartsWith;
    BeginsWithSlash(input);
  }

  /** How the standard's steps see a slash and a segment. */
  lemma {:induction false} StepOfSegment(rest: Bytes, o: Bytes)
    requires rest != []
    ensures var n := SegmentLength(rest);
            var input := [SOLIDUS] + rest;
            RemoveDots(input, o)
            == if rest[..n] == TWO_DOTS then RemoveDots(if n < |rest| then rest[n..] else [SOLIDUS], RemoveLast(o))
               else if rest[..n] == ONE_DOT then RemoveDots(if n < |rest| then rest[n..] else [SOLIDUS], o)
               else RemoveDots(rest[n..], o + [SOLIDUS] + rest[..n])
  {
    hide SegmentLength, RemoveLast, RemoveDots, StartsWith;
    var n, input := SegmentLength(rest), [SOLIDUS] + rest;
    assert input[1..] == rest;
    DotsInFront(rest);
    StepAtSlash(input, o);
    if rest[..n] == TWO_DOTS {
      assert |rest[..n]| == 2;
      assert input[3..] == rest[2..];
    } else if rest[..n] == ONE_DOT {
      assert |rest[..n]| == 1;
      assert input[2..] == rest[1..];
    } else {
      assert input[..1 + n] == [SOLIDUS] + rest[..n];
      assert input[1 + n..] == rest[n..];
      assert o + ([SOLIDUS] + rest[..n]) == o + [SOLIDUS] + rest[..n];
    }
  }

  lemma {:induction false} BeginsWithSlash(input: Bytes)
    requires input != [] && input[0] == SOLIDUS
    ensures !StartsWith(input, [DOT, DOT, SOLIDUS]) && !StartsWith(input, [DOT, SOLIDUS])
    ensures input != [DOT] && input != [DOT, DOT]
  {
  }

  /** In step: the new path ends with the slash that the standard still has in its input. */
  lemma {:induction false} InStep(o: Bytes, rest: Bytes)
    requires o == [] || o[0] == SOLIDUS
    ensures Clean(o + [SOLIDUS], rest) == RemoveDots([SOLIDUS] + rest, o)
    decreases |rest|
  {
    if rest == [] {
      assert [SOLIDUS] + rest == [SOLIDUS];
      assert [SOLIDUS][1..] == [];
    } else {
      var n := SegmentLength(rest);
      var more := if n < |rest| then rest[n + 1..] else [];
      StepOfSegment(rest, o);
      if n < |rest| {
        assert rest[n..] == [SOLIDUS] + more;
      } else {
        assert [SOLIDUS] == [SOLIDUS] + more;
      }
      if rest[..n] == TWO_DOTS {
        BackupRemovesLast(o);
        InStep(RemoveLast(o), more);
      } else if rest[..n] == ONE_DOT {
        InStep(o, more);
      } else if n < |rest| {
        InStep(o + [SOLIDUS] + rest[..n], more);
      } else {
        assert rest[n..] == [] && o + [SOLIDUS] + rest[..n] + [] == o + [SOLIDUS] + rest[..n];
      }
    }
  }

  /** On every path that begins with a slash the program does what the standard asks. */
  lemma {:induction false} NormalIsStandard(path: Bytes)
    requires path != [] && path[0] == SOLIDUS
    ensures Normal(path) == RemoveDots(path, [])
  {
    assert path == [SOLIDUS] + path[1..];
    assert [] + [] + [SOLIDUS] == [] + [SOLIDUS];
    assert path[..0] == [];
    InStep([], path[1..]);
  }

  // ------------------------------------------------------------ on other paths

  /** How many segments a path has to which segments can be added. */
  function Depth(out: Bytes): nat {
    if out == [] then 0 else 1 + Depth(Shortened(out))
  }

  /** A path without its last segment. */
  function Shortened(out: Bytes): Bytes
    requires out != []
  {
    out[..AfterLastSlash(out, |out| - 1)]
  }

  /** The first segment. */
  function First(rest: Bytes): Bytes {
    rest[..SegmentLength(rest)]
  }

  /** What is behind the slash of the first segment. */
  function Others(rest: Bytes): (more: Bytes)
    requires rest != []
    ensures |more| < |rest|
  {
    if SegmentLength(rest) < |rest| then rest[SegmentLength(rest) + 1..] else []
  }

  /** The segments of `rest` are taken one by one. `depth` segments are in the new path already, and `rooted` says
      whether the first of those is empty. A ".." that removes a first segment that is not empty loses the slash
      that stood behind it, which the standard keeps. Then all depends on what follows the last such removal: an empty
      segment comes first and some ".." finds it alone, so that both go on from a single slash, or not. */
  predicate KeepsPace(rest: Bytes, rooted: bool, depth: nat, lost: bool)
    decreases |rest|
  {
    if rest == [] then !lost
    else
      var more := Others(rest);
      if First(rest) == TWO_DOTS then
        if depth == 0 then KeepsPace(more, rooted, 0, lost)
        else if depth > 1 then KeepsPace(more, rooted, depth - 1, lost)
        else rooted || KeepsPace(more, false, 0, true)
      else if First(rest) == ONE_DOT then KeepsPace(more, rooted, depth, lost)
      else KeepsPace(more, if depth == 0 then First(rest) == [] else rooted, depth + 1, lost)
  }

  /** No ".." removes a first segment that is not empty. */
  predicate FirstStays(rest: Bytes, rooted: bool, depth: nat)
    decreases |rest|
  {
    if rest == [] then true
    else
      var more := Others(rest);
      if First(rest) == TWO_DOTS then
        if depth == 0 then FirstStays(more, rooted, 0)
        else if depth > 1 then FirstStays(more, rooted, depth - 1)
        else rooted && FirstStays(more, rooted, 1)
      else if First(rest) == ONE_DOT then FirstStays(more, rooted, depth)
      else FirstStays(more, if depth == 0 then First(rest) == [] else rooted, depth + 1)
  }

  lemma {:induction false} FirstStaysKeepsPace(rest: Bytes, rooted: bool, depth: nat)
    requires FirstStays(rest, rooted, depth)
    ensures KeepsPace(rest, rooted, depth, false)
    decreases |rest|
  {
    hide First, Others;
    if rest != [] {
      var more := Others(rest);
      if First(rest) == TWO_DOTS {
        FirstStaysKeepsPace(more, rooted, if depth == 0 then 0 else if depth > 1 then depth - 1 else 1);
      } else if First(rest) == ONE_DOT {
        FirstStaysKeepsPace(more, rooted, depth);
      } else {
        FirstStaysKeepsPace(more, if depth == 0 then First(rest) == [] else rooted, depth + 1);
      }
    }
  }

  lemma {:induction false} RootedKeepsPace(rest: Bytes, depth: nat)
    requires depth > 0
    ensures KeepsPace(rest, true, depth, false)
    decreases |rest|
  {
    hide First, Others;
    if rest != [] {
      var more := Others(rest);
      if First(rest) == TWO_DOTS {
        if depth > 1 {
          RootedKeepsPace(more, depth - 1);
        }
      } else {
        RootedKeepsPace(more, if First(rest) == ONE_DOT then depth else depth + 1);
      }
    }
  }

  lemma {:induction false} LastSlashAt(s: Bytes, n: nat, k: nat)
    requires k <= n <= |s| && (k > 0 ==> s[k - 1] == SOLIDUS) && forall i :: k <= i < n ==> s[i] != SOLIDUS
    ensures AfterLastSlash(s, n) == k
  {
    var a := AfterLastSlash(s, n);
    assert k > 0 ==> s[k - 1] == SOLIDUS;
    assert a > 0 ==> s[a - 1] == SOLIDUS;
  }

  /** A segment more. */
  lemma {:induction false} DeeperByOne(out: Bytes, segment: Bytes)
    requires IsOpen(out) && SOLIDUS !in segment
    ensures var r := out + segment + [SOLIDUS];
            && IsOpen(r) && Shortened(r) == out && Depth(r) == Depth(out) + 1
            && IsRooted(r) == if Depth(out) == 0 then segment == [] else IsRooted(out)
  {
    var r := out + segment + [SOLIDUS];
    forall i | |out| <= i < |r| - 1 ensures r[i] != SOLIDUS {
      assert r[i] == segment[i - |out|];
    }
    assert out != [] ==> r[|out| - 1] == out[|out| - 1];
    LastSlashAt(r, |r| - 1, |out|);
    assert r[..|out|] == out;
  }

  /** Backing up behind one slash more, unless there is nothing but a slash. */
  lemma {:induction false} BackupBehindSlash(out: Bytes)
    requires IsOpen(out) && out != [SOLIDUS]
    ensures Backup([SOLIDUS] + out) == [SOLIDUS] + Backup(out)
    ensures out != [] ==> Backup(out) == Shortened(out)
  {
    var r := [SOLIDUS] + out;
    if out != [] {
      var k := AfterLastSlash(out, |out| - 1);
      assert |out| > 1;
      forall i | k + 1 <= i < |r| - 1 ensures r[i] != SOLIDUS {
        assert r[i] == out[i - 1];
      }
      assert k > 0 ==> r[k] == out[k - 1];
      LastSlashAt(r, |r| - 1, k + 1);
      assert r[..k + 1] == [SOLIDUS] + out[..k];
    } else {
      assert r == [SOLIDUS];
    }
  }

  /** What becomes of the two parts of the question when a segment has been taken. */
  lemma {:induction false} PaceStep(rest: Bytes, rooted: bool, depth: nat, lost: bool)
    requires rest != []
    ensures First(rest) == ONE_DOT ==> KeepsPace(rest, rooted, depth, lost) == KeepsPace(Others(rest), rooted, depth, lost)
    ensures First(rest) != ONE_DOT && First(rest) != TWO_DOTS ==>
              KeepsPace(rest, rooted, depth, lost)
              == KeepsPace(Others(rest), if depth == 0 then First(rest) == [] else rooted, depth + 1, lost)
    ensures First(rest) == TWO_DOTS ==> KeepsPace(rest, rooted, depth, lost) == PaceBack(Others(rest), rooted, depth, lost)
  {
    hide First, Others;
  }

  predicate PaceBack(more: Bytes, rooted: bool, depth: nat, lost: bool) {
    if depth == 0 then KeepsPace(more, rooted, 0, lost)
    else if depth > 1 then KeepsPace(more, rooted, depth - 1, lost)
    else rooted || KeepsPace(more, false, 0, true)
  }

  lemma {:induction false} CleanFirst(out: Bytes, rest: Bytes)
    requires rest != []
    ensures SOLIDUS !in First(rest)
    ensures First(rest) == TWO_DOTS ==> Clean(out, rest) == Clean(Backup(out), Others(rest))
    ensures First(rest) == ONE_DOT ==> Clean(out, rest) == Clean(out, Others(rest))
    ensures First(rest) != TWO_DOTS && First(rest) != ONE_DOT ==>
              Clean(out, rest) == if IsLast(rest) then out + First(rest) else Clean(out + First(rest) + [SOLIDUS], Others(rest))
    ensures IsLast(rest) ==> Others(rest) == []
  {
    hide SegmentLength, Backup;
    CleanStep(out, rest);
    NothingLeft(out + First(rest) + []);
    assert out + First(rest) + [] == out + First(rest);
  }

  /** There is no slash behind the first segment. */
  predicate IsLast(rest: Bytes) {
    SegmentLength(rest) == |rest|
  }

  predicate IsRooted(out: Bytes) {
    out != [] && out[0] == SOLIDUS
  }

  /** One slash more in front stays in front to the end, unless a ".." finds an empty first segment alone. */
  lemma {:induction false} OneSlashMore(out: Bytes, rest: Bytes)
    requires IsOpen(out)
    ensures Clean([SOLIDUS] + out, rest)
            == if KeepsPace(rest, IsRooted(out), Depth(out), true) then Clean(out, rest) else [SOLIDUS] + Clean(out, rest)
    decreases |rest|, 0
  {
    hide First, Others, Backup, Clean, KeepsPace, Depth, IsLast, PaceBack, IsRooted, SegmentLength;
    var longer := [SOLIDUS] + out;
    if rest == [] {
      NothingLeft(out);
      NothingLeft(longer);
      NothingLost(IsRooted(out), Depth(out));
    } else {
      CleanFirst(out, rest);
      CleanFirst(longer, rest);
      PaceStep(rest, IsRooted(out), Depth(out), true);
      if First(rest) == TWO_DOTS {
        OneSlashMoreBackedUp(out, Others(rest));
      } else if First(rest) == ONE_DOT {
        OneSlashMore(out, Others(rest));
      } else if IsLast(rest) {
        assert longer + First(rest) == [SOLIDUS] + (out + First(rest));
        NothingLost(if Depth(out) == 0 then First(rest) == [] else IsRooted(out), Depth(out) + 1);
      } else {
        var next := out + First(rest) + [SOLIDUS];
        assert longer + First(rest) + [SOLIDUS] == [SOLIDUS] + next;
        DeeperByOne(out, First(rest));
        OneSlashMore(next, Others(rest));
      }
    }
  }

  lemma {:induction false} NothingLost(rooted: bool, depth: nat)
    ensures !KeepsPace([], rooted, depth, true) && KeepsPace([], rooted, depth, false)
  {
  }

  lemma {:induction false} OneSlashMoreBackedUp(out: Bytes, more: Bytes)
    requires IsOpen(out)
    ensures Clean(Backup([SOLIDUS] + out), more)
            == if PaceBack(more, IsRooted(out), Depth(out), true) then Clean(Backup(out), more)
               else [SOLIDUS] + Clean(Backup(out), more)
    decreases |more|, 1
  {
    hide Clean, KeepsPace;
    if out == [SOLIDUS] {
      assert Shortened(out) == [];
      assert ([SOLIDUS] + out)[..1] == [SOLIDUS];
    } else {
      BackupBehindSlash(out);
      BackedUpDepth(out);
      OneSlashMore(Backup(out), more);
    }
  }

  /** Where a path is after backing up. */
  lemma {:induction false} BackedUpDepth(out: Bytes)
    requires IsOpen(out) && out != [SOLIDUS]
    ensures IsOpen(Backup(out)) && Depth(Backup(out)) == if Depth(out) == 0 then 0 else Depth(out) - 1
    ensures Depth(out) != 1 ==> IsRooted(Backup(out)) == IsRooted(out)
    ensures Depth(out) == 1 ==> !IsRooted(out) && Backup(out) == []
  {
    BackupBehindSlash(out);
    if out != [] {
      var k := AfterLastSlash(out, |out| - 1);
      assert Depth(out) == 1 + Depth(out[..k]);
      assert Depth(out[..k]) == 0 <==> k == 0;
      assert k > 0 ==> out[..k][0] == out[0];
    }
  }

  /** The standard's step for a slash and a segment. */
  lemma {:induction false} RemoveFirst(rest: Bytes, o: Bytes)
    requires rest != []
    ensures First(rest) == TWO_DOTS ==> RemoveDots([SOLIDUS] + rest, o) == RemoveDots([SOLIDUS] + Others(rest), RemoveLast(o))
    ensures First(rest) == ONE_DOT ==> RemoveDots([SOLIDUS] + rest, o) == RemoveDots([SOLIDUS] + Others(rest), o)
    ensures First(rest) != TWO_DOTS && First(rest) != ONE_DOT ==>
              RemoveDots([SOLIDUS] + rest, o)
              == if IsLast(rest) then o + [SOLIDUS] + First(rest)
                 else RemoveDots([SOLIDUS] + Others(rest), o + [SOLIDUS] + First(rest))
  {
    hide RemoveLast;
    var n := SegmentLength(rest);
    StepOfSegment(rest, o);
    if n < |rest| {
      assert rest[n..] == [SOLIDUS] + Others(rest);
    } else {
      assert [SOLIDUS] == [SOLIDUS] + Others(rest);
      assert rest[n..] == [];
    }
  }

  lemma {:induction false} OnlySlashLeft(o: Bytes)
    ensures RemoveDots([SOLIDUS] + [], o) == o + [SOLIDUS]
  {
    assert [SOLIDUS] + [] == [SOLIDUS] && [SOLIDUS][1..] == [];
  }

  /** In step again, behind a first segment that is not empty. */
  lemma {:induction false} InStepBehindFirst(o: Bytes, rest: Bytes)
    requires o != [] && o[0] != SOLIDUS
    ensures var out := o + [SOLIDUS];
            RemoveDots([SOLIDUS] + rest, o)
            == if KeepsPace(rest, false, Depth(out), false) then Clean(out, rest) else [SOLIDUS] + Clean(out, rest)
    decreases |rest|, 0
  {
    hide First, Others, Clean, RemoveDots, KeepsPace, IsLast, PaceBack, Depth, Backup, RemoveLast;
    var out := o + [SOLIDUS];
    DepthBehindFirst(o);
    if rest == [] {
      NothingLeft(out);
      NothingLost(false, Depth(out));
      OnlySlashLeft(o);
    } else {
      CleanFirst(out, rest);
      RemoveFirst(rest, o);
      PaceStep(rest, false, Depth(out), false);
      if First(rest) == TWO_DOTS {
        BackBehindFirst(o, Others(rest));
      } else if First(rest) == ONE_DOT {
        InStepBehindFirst(o, Others(rest));
      } else if IsLast(rest) {
        NothingLost(false, Depth(out) + 1);
      } else {
        DeeperByOne(out, First(rest));
        InStepBehindFirst(out + First(rest), Others(rest));
      }
    }
  }

  lemma {:induction false} BackBehindFirst(o: Bytes, more: Bytes)
    requires o != [] && o[0] != SOLIDUS
    ensures var out := o + [SOLIDUS];
            RemoveDots([SOLIDUS] + more, RemoveLast(o))
            == if PaceBack(more, false, Depth(out), false) then Clean(Backup(out), more) else [SOLIDUS] + Clean(Backup(out), more)
    decreases |more|, 1
  {
    hide Clean, RemoveDots, KeepsPace, Depth;
    var out := o + [SOLIDUS];
    DepthBehindFirst(o);
    BackedUpDepth(out);
    if Depth(out) == 1 {
      assert RemoveLast(o) == [] && [] + [SOLIDUS] == [SOLIDUS] + [];
      InStep([], more);
      assert Depth([]) == 0 by { NoSegments(); }
      OneSlashMore([], more);
    } else {
      InStepBehindFirst(RemoveLast(o), more);
    }
  }

  lemma {:induction false} NoSegments()
    ensures Depth([]) == 0
  {
  }

  /** Backing up from a path whose first segment is not empty. */
  lemma {:induction false} DepthBehindFirst(o: Bytes)
    requires o != [] && o[0] != SOLIDUS
    ensures var out := o + [SOLIDUS];
            && Depth(out) >= 1 && out != [SOLIDUS] && !IsRooted(out)
            && (Depth(out) == 1 ==> RemoveLast(o) == [])
            && (Depth(out) > 1 ==> RemoveLast(o) != [] && RemoveLast(o)[0] != SOLIDUS && Backup(out) == RemoveLast(o) + [SOLIDUS])
  {
    var out := o + [SOLIDUS];
    SameLastSlash(out, o, |o|);
    var k := AfterLastSlash(o, |o|);
    assert Shortened(out) == o[..k] by { assert out[..k] == o[..k]; }
    assert Depth(o[..k]) == 0 <==> k == 0;
    if k > 0 {
      assert k > 1;
      assert out[..k] == o[..k - 1] + [SOLIDUS];
    }
  }

  lemma {:induction false} FirstAndOthers(path: Bytes)
    requires path != []
    ensures var n := SegmentLength(path);
            path == First(path) + path[n..] && path[n..] == if n < |path| then [SOLIDUS] + Others(path) else []
  {
  }

  lemma {:induction false} RemoveFromRelative(path: Bytes)
    requires path != [] && path[0] != SOLIDUS
    ensures First(path) == TWO_DOTS || First(path) == ONE_DOT ==> RemoveDots(path, []) == RemoveDots(Others(path), [])
    ensures First(path) != TWO_DOTS && First(path) != ONE_DOT ==>
              && First(path) != [] && First(path)[0] != SOLIDUS
              && RemoveDots(path, []) == if IsLast(path) then First(path) else RemoveDots([SOLIDUS] + Others(path), First(path))
  {
    hide RemoveLast, SegmentLength;
    FirstAndOthers(path);
    if First(path) == TWO_DOTS || First(path) == ONE_DOT {
      DotsOff(path);
    } else {
      NoDotsInFront(path);
      assert [] + First(path) == First(path);
    }
  }

  lemma {:induction false} DotsOff(path: Bytes)
    requires path != [] && (First(path) == TWO_DOTS || First(path) == ONE_DOT)
    ensures RemoveDots(path, []) == RemoveDots(Others(path), [])
  {
    hide RemoveDots, SegmentLength;
    var n := SegmentLength(path);
    assert path == First(path) + path[n..];
    if n < |path| {
      assert path[n..] == [SOLIDUS] + Others(path);
      DotsAndSlashOff(First(path), Others(path));
    } else {
      LoneDots(path);
    }
  }

  lemma {:induction false} DotsAndSlashOff(dots: Bytes, rest: Bytes)
    requires dots == TWO_DOTS || dots == ONE_DOT
    ensures RemoveDots(dots + ([SOLIDUS] + rest), []) == RemoveDots(rest, [])
  {
    hide SegmentLength, RemoveLast;
    var path := dots + ([SOLIDUS] + rest);
    assert path[|dots| + 1..] == rest;
    if dots == TWO_DOTS {
      assert path[..3] == [DOT, DOT, SOLIDUS];
    } else {
      assert path[..2] == [DOT, SOLIDUS] && path[1] == SOLIDUS;
    }
  }

  lemma {:induction false} LoneDots(path: Bytes)
    requires path == TWO_DOTS || path == ONE_DOT
    ensures RemoveDots(path, []) == RemoveDots([], [])
  {
    hide SegmentLength, RemoveLast;
  }

  lemma {:induction false} NoDotsInFront(path: Bytes)
    requires path != [] && path[0] != SOLIDUS && First(path) != TWO_DOTS && First(path) != ONE_DOT
    ensures path != [DOT] && path != [DOT, DOT]
    ensures !StartsWith(path, [DOT, DOT, SOLIDUS]) && !StartsWith(path, [DOT, SOLIDUS])
  {
    hide First, StartsWith;
    FirstOfDots(path);
  }

  lemma {:induction false} FirstOfDots(path: Bytes)
    ensures path == [DOT] || StartsWith(path, [DOT, SOLIDUS]) ==> First(path) == ONE_DOT
    ensures path == [DOT, DOT] || StartsWith(path, [DOT, DOT, SOLIDUS]) ==> First(path) == TWO_DOTS
  {
    var n := SegmentLength(path);
    if path == [DOT] || StartsWith(path, [DOT, SOLIDUS]) {
      assert path[0] == DOT && (|path| > 1 ==> path[1] == SOLIDUS);
      assert n == 1;
      assert path[..n] == ONE_DOT;
    }
    if path == [DOT, DOT] || StartsWith(path, [DOT, DOT, SOLIDUS]) {
      assert path[0] == DOT && path[1] == DOT && (|path| > 2 ==> path[2] == SOLIDUS);
      assert n == 2;
      assert path[..n] == TWO_DOTS;
    }
  }

  /** On every path the program does what the standard asks, or loses the slash that the standard puts in front;
      which of the two its segments tell. */
  lemma {:induction false} NormalExactlyWhen(path: Bytes)
    ensures RemoveDots(path, []) == if KeepsPace(path, false, 0, false) then Normal(path) else [SOLIDUS] + Normal(path)
    ensures RemoveDots(path, []) == Normal(path) <==> KeepsPace(path, false, 0, false)
    decreases |path|
  {
    hide First, Others, Clean, RemoveDots, KeepsPace, IsLast, PaceBack, Depth, IsOpen;
    if path == [] {
      NothingLeft([]);
      NothingLost(false, 0);
      NothingToRemove();
    } else if path[0] == SOLIDUS {
      NormalIsStandard(path);
      AbsoluteKeepsPace(path);
    } else {
      CleanFirst([], path);
      RemoveFromRelative(path);
      PaceStep(path, false, 0, false);
      if First(path) == TWO_DOTS || First(path) == ONE_DOT {
        assert PaceBack(Others(path), false, 0, false) == KeepsPace(Others(path), false, 0, false) by { PaceAtNothing(Others(path)); }
        NormalExactlyWhen(Others(path));
      } else if IsLast(path) {
        NothingLost(false, 1);
        assert [] + First(path) == First(path);
      } else {
        assert IsOpen([]) by { NothingIsOpen(); }
        DeeperByOne([], First(path));
        NoSegments();
        assert [] + First(path) + [SOLIDUS] == First(path) + [SOLIDUS];
        InStepBehindFirst(First(path), Others(path));
      }
    }
  }

  lemma {:induction false} NothingIsOpen()
    ensures IsOpen([])
  {
  }

  lemma {:induction false} PaceAtNothing(more: Bytes)
    ensures PaceBack(more, false, 0, false) == KeepsPace(more, false, 0, false)
  {
  }

  lemma {:induction false} NothingToRemove()
    ensures RemoveDots([], []) == []
  {
  }

  lemma {:induction false} AbsoluteKeepsPace(path: Bytes)
    requires path != [] && path[0] == SOLIDUS
    ensures KeepsPace(path, false, 0, false)
  {
    hide KeepsPace;
    PaceStep(path, false, 0, false);
    assert First(path) == [];
    RootedKeepsPace(Others(path), 1);
  }

  /** Where no ".." removes a first segment that is not empty, relative paths are treated as by the standard too. */
  lemma {:induction false} NormalIsStandardIfFirstStays(path: Bytes)
    requires FirstStays(path, false, 0)
    ensures Normal(path) == RemoveDots(path, [])
  {
    FirstStaysKeepsPace(path, false, 0);
    NormalExactlyWhen(path);
  }

  /** On relative paths it need not: "a/../b" becomes "b", by the standard "/b". */
  lemma {:induction false} RelativePathsDiffer()
    ensures var path: Bytes := [0x61, SOLIDUS, DOT, DOT, SOLIDUS, 0x62];
            Normal(path) == [0x62] && RemoveDots(path, []) == [SOLIDUS, 0x62]
  {
    RelativeByProgram();
    RelativeByStandard();
  }

  lemma {:induction false} RelativeByProgram()
    ensures Normal([0x61, SOLIDUS, DOT, DOT, SOLIDUS, 0x62]) == [0x62]
  {
    var path: Bytes, rest: Bytes := [0x61, SOLIDUS, DOT, DOT, SOLIDUS, 0x62], [DOT, DOT, SOLIDUS, 0x62];
    assert path[1..][0] == SOLIDUS;
    assert path[..1] == [0x61] && path[1 + 1..] == rest;
    assert [] + [0x61] + [SOLIDUS] == [0x61, SOLIDUS];
    assert Normal(path) == Clean([0x61, SOLIDUS], rest);
    assert rest[1..][0] == DOT && rest[1..][1..][0] == SOLIDUS;
    assert SegmentLength(rest[1..]) == 1;
    assert rest[..2] == TWO_DOTS && rest[2 + 1..] == [0x62];
    assert AfterLastSlash([0x61, SOLIDUS], 1) == 0;
    assert Clean([0x61, SOLIDUS], rest) == Clean([], [0x62]);
    assert [0x62][1..] == [] && SegmentLength([0x62]) == 1;
    assert [] + [0x62][..1] + [] == [0x62];
  }

  lemma {:induction false} FirstRemovedByStandard()
    ensures RemoveDots([SOLIDUS, DOT, DOT, SOLIDUS, 0x62], [0x61]) == RemoveDots([SOLIDUS, 0x62], [])
  {
    hide SegmentLength;
    var rest: Bytes := [SOLIDUS, DOT, DOT, SOLIDUS, 0x62];
    assert rest[3..] == [SOLIDUS, 0x62];
    assert rest[..2] == [SOLIDUS, DOT] && rest[..3] == [SOLIDUS, DOT, DOT] && rest[..4] == [SOLIDUS, DOT, DOT, SOLIDUS];
    assert [SOLIDUS, DOT, DOT][0] == SOLIDUS && [SOLIDUS, DOT, DOT][2] == DOT;
    assert AfterLastSlash([0x61], 1) == 0;
    assert RemoveLast([0x61]) == [];
    assert RemoveDots(rest, [0x61]) == RemoveDots(rest[3..], RemoveLast([0x61]));
  }

  lemma {:induction false} LastKeptByStandard()
    ensures RemoveDots([SOLIDUS, 0x62], []) == [SOLIDUS, 0x62]
  {
    InStep([], [0x62]);
    assert [SOLIDUS] + [0x62] == [SOLIDUS, 0x62] && [] + [SOLIDUS] == [SOLIDUS];
    assert [0x62][1..] == [] && SegmentLength([0x62]) == 1;
    assert [SOLIDUS] + [0x62][..1] + [] == [SOLIDUS, 0x62];
  }

  lemma {:induction false} RelativeByStandard()
    ensures RemoveDots([0x61, SOLIDUS, DOT, DOT, SOLIDUS, 0x62], []) == [SOLIDUS, 0x62]
  {
    var path: Bytes, rest: Bytes := [0x61, SOLIDUS, DOT, DOT, SOLIDUS, 0x62], [SOLIDUS, DOT, DOT, SOLIDUS, 0x62];
    assert path[1..] == rest && path[..1] == [0x61];
    assert SegmentLength(path) == 1;
    assert RemoveDots(path, []) == RemoveDots(rest, [0x61]);
    FirstRemovedByStandard();
    LastKeptByStandard();
  }

  // ------------------------------------------------------------ no dot segments are left

  /** A stretch between slashes. */
  predicate IsSegment(s: Bytes, i: nat, j: nat) {
    && i <= j <= |s| && (i == 0 || s[i - 1] == SOLIDUS) && (j == |s| || s[j] == SOLIDUS)
    && forall k :: i <= k < j ==> s[k] != SOLIDUS
  }

  ghost predicate NoDotSegments(s: Bytes) {
    forall i: nat, j: nat :: IsSegment(s, i, j) ==> s[i..j] != ONE_DOT && s[i..j] != TWO_DOTS
  }

  /** A path to which segments can be added: it ends with a slash or has nothing. */
  predicate IsOpen(s: Bytes) {
    s == [] || s[|s| - 1] == SOLIDUS
  }

  lemma {:induction false} PrefixHasNoDots(s: Bytes, k: nat)
    requires NoDotSegments(s) && k <= |s| && (k == 0 || s[k - 1] == SOLIDUS)
    ensures NoDotSegments(s[..k])
  {
    var t := s[..k];
    assert k > 0 ==> t[k - 1] == SOLIDUS;
    forall i: nat, j: nat | IsSegment(t, i, j) ensures t[i..j] != ONE_DOT && t[i..j] != TWO_DOTS {
      if j < k {
        assert s[j] == t[j];
        assert IsSegment(s, i, j);
        assert s[i..j] == t[i..j];
      }
    }
  }

  /** Adding a segment that is not made of dots. */
  lemma {:induction false} SegmentAdded(s: Bytes, segment: Bytes, slash: Bytes)
    requires NoDotSegments(s) && IsOpen(s) && SOLIDUS !in segment && segment != ONE_DOT && segment != TWO_DOTS
    requires slash == [] || slash == [SOLIDUS]
    ensures NoDotSegments(s + segment + slash) && (slash != [] ==> IsOpen(s + segment + slash))
  {
    var t, m := s + segment + slash, |s| + |segment|;
    assert forall k :: 0 <= k < |s| ==> t[k] == s[k];
    forall k | |s| <= k < m ensures t[k] != SOLIDUS {
      assert t[k] == segment[k - |s|];
    }
    assert t[|s|..m] == segment;
    assert m < |t| ==> t[m] == SOLIDUS;
    forall i: nat, j: nat | IsSegment(t, i, j) ensures t[i..j] != ONE_DOT && t[i..j] != TWO_DOTS {
      if i < |s| {
        assert t[|s| - 1] == SOLIDUS;
        assert j < |s|;
        assert s[j] == t[j] && (i > 0 ==> s[i - 1] == t[i - 1]);
        assert IsSegment(s, i, j);
        assert s[i..j] == t[i..j];
      } else if i < m {
        assert i == |s| && j == m;
      } else {
        assert t[i..j] == [];
      }
    }
  }

  lemma {:induction false} CleanHasNoDots(out: Bytes, rest: Bytes)
    requires NoDotSegments(out) && IsOpen(out)
    ensures NoDotSegments(Clean(out, rest))
    decreases |rest|
  {
    hide NoDotSegments, Backup, SegmentLength, IsOpen;
    if rest != [] {
      var n := SegmentLength(rest);
      var slash := if n < |rest| then [SOLIDUS] else [];
      var more := if n < |rest| then rest[n + 1..] else [];
      if rest[..n] == TWO_DOTS {
        BackedUp(out);
        CleanHasNoDots(Backup(out), more);
      } else if rest[..n] == ONE_DOT {
        CleanHasNoDots(out, more);
      } else {
        SegmentAdded(out, rest[..n], slash);
        if n < |rest| {
          CleanHasNoDots(out + rest[..n] + slash, more);
        }
      }
    }
  }

  lemma {:induction false} BackedUp(out: Bytes)
    requires NoDotSegments(out) && IsOpen(out)
    ensures NoDotSegments(Backup(out)) && IsOpen(Backup(out))
  {
    if |out| > 1 {
      PrefixHasNoDots(out, AfterLastSlash(out, |out| - 1));
    }
  }

  /** The new path has no dot segments. */
  lemma {:induction false} NormalHasNoDots(path: Bytes)
    ensures NoDotSegments(Normal(path))
  {
    CleanHasNoDots([], path);
  }

  lemma {:induction false} NothingLeft(out: Bytes)
    ensures Clean(out, []) == out
  {
  }

  lemma {:induction false} CleanKeeps(out: Bytes, rest: Bytes)
    requires NoDotSegments(out + rest) && IsOpen(out)
    ensures Clean(out, rest) == out + rest
    decreases |rest|
  {
    hide Clean, NoDotSegments, SegmentLength, Backup;
    if rest == [] {
      NothingLeft(out);
      assert out + rest == out;
    } else {
      var n := SegmentLength(rest);
      var next := out + rest[..n] + if n < |rest| then [SOLIDUS] else [];
      var more := if n < |rest| then rest[n + 1..] else [];
      CleanStep(out, rest);
      NextIsNoDots(out, rest);
      Regrouped(out, rest, n);
      if n < |rest| {
        CleanKeeps(next, more);
      } else {
        NothingLeft(next);
      }
    }
  }

  lemma {:induction false} NextIsNoDots(out: Bytes, rest: Bytes)
    requires NoDotSegments(out + rest) && IsOpen(out)
    ensures rest[..SegmentLength(rest)] != ONE_DOT && rest[..SegmentLength(rest)] != TWO_DOTS
  {
    hide SegmentLength;
    var n, t := SegmentLength(rest), out + rest;
    assert forall k :: 0 <= k < |rest| ==> t[|out| + k] == rest[k];
    assert IsSegment(t, |out|, |out| + n);
    assert t[|out|..|out| + n] == rest[..n];
  }

  lemma {:induction false} Regrouped(out: Bytes, rest: Bytes, n: nat)
    requires n <= |rest| && (n < |rest| ==> rest[n] == SOLIDUS)
    ensures var slash := if n < |rest| then [SOLIDUS] else [];
            var more := if n < |rest| then rest[n + 1..] else [];
            out + rest[..n] + slash + more == out + rest
  {
    if n < |rest| {
      assert rest == rest[..n] + [SOLIDUS] + rest[n + 1..];
    } else {
      assert rest == rest[..n];
    }
  }

  /** Doing it again changes nothing. */
  lemma {:induction false} NormalIsIdempotent(path: Bytes)
    ensures Normal(Normal(path)) == Normal(path)
  {
    NormalHasNoDots(path);
    assert [] + Normal(path) == Normal(path);
    CleanKeeps([], Normal(path));
  }

  // ------------------------------------------------------------ in place

  /** A part of the buffer: from `p` on there is this text, and a NUL behind it. */
  predicate PartIn(b: Bytes, p: nat, s: Bytes) {
    NUL !in s && p + |s| < |b| && b[p..p + |s|] == s && b[p + |s|] == NUL
  }

  method StrLen(b: array<Byte>, p: nat, ghost s: Bytes) returns (n: nat)
    requires PartIn(b[..], p, s)
    ensures n == |s|
  {
    n := 0;
    while b[p + n] != NUL
      invariant n <= |s|
      decreases |s| - n
    {
      n := n + 1;
    }
    if n < |s| {
      NoNulInside(b[..], p, s, n);
    }
  }

  lemma {:induction false} NoNulInside(b: Bytes, p: nat, s: Bytes, n: nat)
    requires PartIn(b, p, s) && n < |s|
    ensures b[p + n] != NUL
  {
    assert b[p..p + |s|][n] == s[n];
  }

  /** The length of the segment at `pathpos`. */
  method NextSlash(path: array<Byte>, pathpos: nat, pathlen: nat) returns (slashpos: nat)
    requires pathpos < pathlen <= path.Length
    ensures slashpos == SegmentLength(path[pathpos..pathlen])
  {
    slashpos := 0;
    ghost var s := path[pathpos..pathlen];
    assert s[slashpos..] == s;
    while pathpos + slashpos < pathlen
      invariant slashpos <= |s| && SegmentLength(s) == slashpos + SegmentLength(s[slashpos..])
      decreases pathlen - slashpos
    {
      if path[pathpos + slashpos] == SOLIDUS {
        return;
      }
      assert s[slashpos..][0] == path[pathpos + slashpos];
      assert s[slashpos..][1..] == s[slashpos + 1..];
      slashpos := slashpos + 1;
    }
  }

  /** Moves bytes down; source and target may overlap. */
  method MoveBytes(path: array<Byte>, to: nat, from: nat, n: nat)
    requires to <= from && from + n <= path.Length
    modifies path
    ensures path[to..to + n] == old(path[from..from + n])
    ensures path[..to] == old(path[..to]) && path[from + n..] == old(path[from + n..])
  {
    for k := 0 to n
      invariant forall i :: 0 <= i < to || from + k <= i < path.Length ==> path[i] == old(path[i])
      invariant forall i :: to <= i < to + k ==> path[i] == old(path[i + (from - to)])
    {
      path[to + k] := path[from + k];
    }
  }

  /** The position to which a segment of two dots backs up the new path, which begins at `p`. */
  method BackedUpTo(path: array<Byte>, p: nat, newpos: nat) returns (k: nat)
    requires p <= newpos <= path.Length && (newpos == p || path[newpos - 1] == SOLIDUS)
    ensures p <= k <= newpos && (k == p || path[k - 1] == SOLIDUS) && path[p..k] == Backup(path[p..newpos])
  {
    k := newpos;
    if k > p + 1 {
      k := k - 1;
      ghost var out := path[p..newpos];
      while k > p
        invariant p <= k < newpos && path[newpos - 1] == SOLIDUS
        invariant AfterLastSlash(out, newpos - 1 - p) == AfterLastSlash(out, k - p)
      {
        if path[k - 1] == SOLIDUS {
          break;
        }
        k := k - 1;
      }
      assert path[p..k] == out[..k - p];
    }
  }

  /** A segment, that is no dot segment, and its slash are moved to the new path. */
  method KeepSegment(path: array<Byte>, p: nat, pathpos: nat, n: nat, pathlen: nat, newpos: nat) returns (end: nat)
    requires p <= newpos <= pathpos && pathpos + n <= pathlen < path.Length
    requires pathpos + n < pathlen ==> path[pathpos + n] == SOLIDUS
    modifies path
    ensures newpos <= end <= pathlen && end <= pathpos + n + 1 && (pathpos + n < pathlen ==> end > p && path[end - 1] == SOLIDUS)
    ensures path[p..end] == old(path[p..newpos]) + old(path[pathpos..pathpos + n])
                            + (if pathpos + n < pathlen then [SOLIDUS] else [])
    ensures pathpos + n < pathlen ==> path[pathpos + n + 1..pathlen] == old(path[pathpos + n + 1..pathlen])
    ensures path[..p] == old(path[..p]) && path[pathlen..] == old(path[pathlen..])
  {
    ghost var first := path[..];
    end := MoveSegment(path, p, pathpos, n, newpos);
    ghost var moved := path[..];
    if pathpos + n < pathlen {
      PutSlash(path, p, end);
      end := end + 1;
      TailKept(first, moved, path[..], pathpos + n, end, pathpos + n + 1, pathlen);
      TailKept(first, moved, path[..], pathpos + n, end, pathlen, path.Length);
    }
  }

  method PutSlash(path: array<Byte>, p: nat, end: nat)
    requires p <= end < path.Length
    modifies path
    ensures path[p..end + 1] == old(path[p..end]) + [SOLIDUS]
    ensures path[..p] == old(path[..p]) && path[end + 1..] == old(path[end + 1..])
  {
    path[end] := SOLIDUS;
  }

  lemma {:induction false} TailKept(a: Bytes, b: Bytes, c: Bytes, i: nat, j: nat, from: nat, to: nat)
    requires |a| == |b| == |c| && i <= from <= to <= |a| && j <= from && a[i..] == b[i..] && b[j..] == c[j..]
    ensures a[from..to] == c[from..to]
  {
    SliceOfTail(a, i, from, to);
    SliceOfTail(b, i, from, to);
    SliceOfTail(b, j, from, to);
    SliceOfTail(c, j, from, to);
  }

  /** Moves the bytes of a segment behind the new path. */
  method MoveSegment(path: array<Byte>, p: nat, pathpos: nat, n: nat, newpos: nat) returns (end: nat)
    requires p <= newpos <= pathpos && pathpos + n <= path.Length
    modifies path
    ensures end == newpos + n && path[p..end] == old(path[p..newpos]) + old(path[pathpos..pathpos + n])
    ensures path[..p] == old(path[..p]) && path[pathpos + n..] == old(path[pathpos + n..])
  {
    MoveBytes(path, newpos, pathpos, n);
    end := newpos + n;
    assert path[p..newpos] == path[..newpos][p..] == old(path[..newpos])[p..] == old(path[p..newpos]);
    assert path[p..end] == path[p..newpos] + path[newpos..end];
    assert path[..p] == path[..newpos][..p] == old(path[..newpos])[..p];
  }

  /** The new path when a segment has been seen. */
  function Placed(out: Bytes, segment: Bytes, slash: Bytes): (r: Bytes)
    ensures NUL !in out && NUL !in segment && NUL !in slash ==> NUL !in r
  {
    if segment == TWO_DOTS then Backup(out) else if segment == ONE_DOT then out else out + segment + slash
  }

  /** Drops the segment of `n` bytes at `pathpos`, or keeps it or drops the one before it. */
  method PlaceSegment(path: array<Byte>, p: nat, pathpos: nat, n: nat, pathlen: nat, newpos0: nat) returns (newpos: nat)
    requires p <= newpos0 <= pathpos && pathpos + n <= pathlen < path.Length && (newpos0 == p || path[newpos0 - 1] == SOLIDUS)
    requires pathpos + n < pathlen ==> path[pathpos + n] == SOLIDUS
    modifies path
    ensures p <= newpos <= pathlen && newpos <= pathpos + n + 1
    ensures pathpos + n < pathlen ==> newpos == p || path[newpos - 1] == SOLIDUS
    ensures path[p..newpos] == Placed(old(path[p..newpos0]), old(path[pathpos..pathpos + n]),
                                      if pathpos + n < pathlen then [SOLIDUS] else [])
    ensures pathpos + n < pathlen ==> path[pathpos + n + 1..pathlen] == old(path[pathpos + n + 1..pathlen])
    ensures path[..p] == old(path[..p]) && path[pathlen..] == old(path[pathlen..])
  {
    hide Backup;
    ghost var segment := path[pathpos..pathpos + n];
    newpos := newpos0;
    if n == 2 && path[pathpos] == DOT && path[pathpos + 1] == DOT {
      assert segment == TWO_DOTS;
      newpos := BackedUpTo(path, p, newpos0);
    } else if n == 1 && path[pathpos] == DOT {
      assert segment == ONE_DOT;
    } else {
      NotDots(segment, n);
      assert segment[..n] == segment;
      newpos := KeepSegment(path, p, pathpos, n, pathlen, newpos0);
    }
  }

  /** One turn of the loop: the segment at `pathpos`. */
  method OneSegment(path: array<Byte>, p: nat, pathpos0: nat, pathlen: nat, newpos0: nat) returns (pathpos: nat, newpos: nat)
    requires p <= newpos0 <= pathpos0 < pathlen < path.Length && (newpos0 == p || path[newpos0 - 1] == SOLIDUS)
    modifies path
    ensures pathpos0 < pathpos && p <= newpos <= pathpos && newpos <= pathlen
    ensures pathpos < pathlen ==> newpos == p || path[newpos - 1] == SOLIDUS
    ensures pathpos < pathlen ==> path[pathpos..pathlen] == old(path[pathpos..pathlen])
    ensures Clean(old(path[p..newpos0]), old(path[pathpos0..pathlen]))
         == Clean(path[p..newpos], if pathpos < pathlen then path[pathpos..pathlen] else [])
    ensures NUL !in old(path[p..newpos0]) && NUL !in old(path[pathpos0..pathlen]) ==> NUL !in path[p..newpos]
    ensures path[..p] == old(path[..p]) && path[pathlen..] == old(path[pathlen..])
  {
    hide Clean, SegmentLength, Placed;
    ghost var out, rest := path[p..newpos0], path[pathpos0..pathlen];
    var n := NextSlash(path, pathpos0, pathlen);
    CleanStep(out, rest);
    pathpos := pathpos0 + n + 1;
    assert rest[..n] == path[pathpos0..pathpos0 + n];
    assert n < |rest| ==> rest[n + 1..] == path[pathpos..pathlen];
    newpos := PlaceSegment(path, p, pathpos0, n, pathlen, newpos0);
  }

  lemma {:induction false} CleanStep(out: Bytes, rest: Bytes)
    requires rest != []
    ensures var n := SegmentLength(rest);
            Clean(out, rest)
            == Clean(Placed(out, rest[..n], if n < |rest| then [SOLIDUS] else []), if n < |rest| then rest[n + 1..] else [])
  {
  }

  lemma {:induction false} NotDots(s: Bytes, n: nat)
    requires n <= |s| && !(n == 2 && s[0] == DOT && s[1] == DOT) && !(n == 1 && s[0] == DOT)
    ensures s[..n] != TWO_DOTS && s[..n] != ONE_DOT
  {
    if n == 2 {
      assert s[..n][0] == s[0] && s[..n][1] == s[1];
    } else if n == 1 {
      assert s[..n][0] == s[0];
    }
  }

  /** Removes the dot segments of the path at `p` where it stands: `newpos`, where the new path ends, never passes
      `pathpos`, from where the old one is left. Nothing in front of the path or behind its NUL changes. */
  method RemoveDotSegments(path: array<Byte>, p: nat, ghost s: Bytes)
    requires PartIn(path[..], p, s)
    modifies path
    ensures |Normal(s)| <= |s| && PartIn(path[..], p, Normal(s))
    ensures path[..p] == old(path[..p]) && path[p + |s| + 1..] == old(path[p + |s| + 1..])
  {
    hide Clean;
    var n := StrLen(path, p, s);
    var pathlen: nat := p + n;
    var pathpos: nat, newpos: nat := p, p;
    assert path[pathpos..pathlen] == s && path[p..newpos] == [];
    while pathpos < pathlen
      invariant p <= newpos <= pathpos && newpos <= pathlen < path.Length && NUL !in path[p..newpos]
      invariant pathpos < pathlen ==> newpos == p || path[newpos - 1] == SOLIDUS
      invariant pathpos < pathlen ==> path[pathpos..pathlen] == s[pathpos - p..]
      invariant Normal(s) == Clean(path[p..newpos], if pathpos < pathlen then path[pathpos..pathlen] else [])
      invariant path[..p] == old(path[..p]) && path[pathlen..] == old(path[pathlen..])
      decreases pathlen - pathpos
    {
      ghost var before := path[pathpos..pathlen];
      ghost var from := pathpos;
      pathpos, newpos := OneSegment(path, p, pathpos, pathlen, newpos);
      assert pathpos < pathlen ==> before[pathpos - from..] == s[pathpos - p..];
    }
    NothingLeft(path[p..newpos]);
    assert path[p + |s| + 1..] == path[pathlen..][1..];
    path[newpos] := NUL;
  }

  // ------------------------------------------------------------ segments as a stack

  /** Segments, each behind a slash. */
  function Path(segments: seq<Bytes>): Bytes {
    if segments == [] then [] else [SOLIDUS] + segments[0] + Path(segments[1..])
  }

  predicate AreSegments(segments: seq<Bytes>) {
    forall i :: 0 <= i < |segments| ==> SOLIDUS !in segments[i]
  }

  /** One segment after the other: "." is dropped and ".." takes the last one away; at the end they leave the slash. */
  function Stacked(segments: seq<Bytes>, kept: seq<Bytes>): seq<Bytes>
    decreases |segments|
  {
    if segments == [] then kept
    else
      var end := if |segments| == 1 then [[]] else [];
      if segments[0] == ONE_DOT then Stacked(segments[1..], kept + end)
      else if segments[0] == TWO_DOTS then Stacked(segments[1..], (if kept == [] then [] else kept[..|kept| - 1]) + end)
      else Stacked(segments[1..], kept + [segments[0]])
  }

  lemma {:induction false} PathAppended(segments: seq<Bytes>, s: Bytes)
    ensures Path(segments + [s]) == Path(segments) + ([SOLIDUS] + s)
    decreases |segments|
  {
    if segments == [] {
      assert [s][1..] == [] && [SOLIDUS] + s + [] == [SOLIDUS] + s;
    } else {
      assert (segments + [s])[1..] == segments[1..] + [s];
      PathAppended(segments[1..], s);
      assert [SOLIDUS] + segments[0] + (Path(segments[1..]) + ([SOLIDUS] + s))
             == [SOLIDUS] + segments[0] + Path(segments[1..]) + ([SOLIDUS] + s);
    }
  }

  /** What the standard removes from the output is the last segment. */
  lemma {:induction false} RemoveLastPops(kept: seq<Bytes>)
    requires AreSegments(kept)
    ensures RemoveLast(Path(kept)) == if kept == [] then [] else Path(kept[..|kept| - 1])
  {
    if kept != [] {
      var front, s := kept[..|kept| - 1], kept[|kept| - 1];
      assert kept == front + [s];
      PathAppended(front, s);
      var out, k := Path(kept), |Path(front)| + 1;
      assert out[k - 1] == SOLIDUS && forall i :: k <= i < |out| ==> out[i] == s[i - k];
      LastSlashIs(out, |out|, k);
      assert out[..k - 1] == Path(front);
    }
  }

  lemma {:induction false} LastSlashIs(s: Bytes, n: nat, k: nat)
    requires 0 < k <= n <= |s| && s[k - 1] == SOLIDUS && forall i :: k <= i < n ==> s[i] != SOLIDUS
    ensures AfterLastSlash(s, n) == k
  {
    if k < n {
      LastSlashIs(s, n - 1, k);
    }
  }

  lemma {:induction false} SegmentOf(s: Bytes, rest: Bytes)
    requires SOLIDUS !in s && (rest == [] || rest[0] == SOLIDUS)
    ensures SegmentLength(s + rest) == |s|
  {
    if s == [] {
      assert [] + rest == rest;
    } else {
      assert (s + rest)[1..] == s[1..] + rest;
      SegmentOf(s[1..], rest);
    }
  }

  /** How the path of a segment and more begins. */
  lemma {:induction false} PathBegins(s: Bytes, rest: Bytes)
    requires SOLIDUS !in s && (rest == [] || rest[0] == SOLIDUS)
    ensures var input := [SOLIDUS] + s + rest;
            && input != [] && input[1..] == s + rest && 1 + SegmentLength(input[1..]) == 1 + |s|
            && input[..1 + |s|] == [SOLIDUS] + s && input[1 + |s|..] == rest
            && !StartsWith(input, [DOT, DOT, SOLIDUS]) && !StartsWith(input, [DOT, SOLIDUS]) && input != [DOT] && input != [DOT, DOT]
            && (StartsWith(input, [SOLIDUS, DOT, SOLIDUS]) <==> s == ONE_DOT && rest != [])
            && (input == [SOLIDUS, DOT] <==> s == ONE_DOT && rest == [])
            && (StartsWith(input, [SOLIDUS, DOT, DOT, SOLIDUS]) <==> s == TWO_DOTS && rest != [])
            && (input == [SOLIDUS, DOT, DOT] <==> s == TWO_DOTS && rest == [])
  {
    var input := [SOLIDUS] + s + rest;
    assert input[1..] == s + rest;
    SegmentOf(s, rest);
    assert input[0] == SOLIDUS;
    assert [DOT, DOT, SOLIDUS][0] == DOT && [DOT, SOLIDUS][0] == DOT && [DOT][0] == DOT && [DOT, DOT][0] == DOT;
    assert |s| >= 1 ==> input[1] == s[0];
    assert |s| >= 2 ==> input[2] == s[1];
    assert |s| >= 3 ==> input[3] == s[2];
    assert rest != [] ==> input[1 + |s|] == SOLIDUS;
  }

  /** The standard removes dot segments as a stack of segments does. */
  lemma {:induction false} RemovesAsStack(segments: seq<Bytes>, kept: seq<Bytes>)
    requires AreSegments(segments) && AreSegments(kept)
    ensures RemoveDots(Path(segments), Path(kept)) == Path(Stacked(segments, kept))
    decreases |segments|
  {
    hide StartsWith, RemoveLast;
    if segments != [] {
      var s, rest := segments[0], segments[1..];
      var input, more := Path(segments), Path(rest);
      PathBegins(s, more);
      assert rest == [] <==> more == [];
      if s == ONE_DOT || s == TWO_DOTS {
        var left := if s == ONE_DOT || kept == [] then kept else kept[..|kept| - 1];
        RemoveLastPops(kept);
        var output := if s == ONE_DOT then Path(kept) else RemoveLast(Path(kept));
        if rest == [] {
          SlashAtEnd(output);
          PathAppended(left, []);
          assert [SOLIDUS] + [] == [SOLIDUS];
        } else {
          assert input[if s == ONE_DOT then 2 else 3..] == more;
          assert left + [] == left;
          RemovesAsStack(rest, left);
        }
      } else {
        PathAppended(kept, s);
        RemovesAsStack(rest, kept + [s]);
      }
    }
  }

  lemma {:induction false} SlashAtEnd(output: Bytes)
    ensures RemoveDots([SOLIDUS], output) == output + [SOLIDUS]
  {
  }

  /** So does the program for every path of segments, each behind a slash. */
  lemma {:induction false} NormalByStack(segments: seq<Bytes>)
    requires AreSegments(segments)
    ensures Normal(Path(segments)) == Path(Stacked(segments, []))
  {
    hide Normal, RemoveDots;
    if segments == [] {
      NormalOfNothing();
    } else {
      NormalIsStandard(Path(segments));
      RemovesAsStack(segments, []);
    }
  }

  /** A worked example of section 5.2.4: "mid/content=5/../6" gives "mid/6", with one byte each for mid and content=5. */
  lemma {:induction false} RelativeExample(m: Byte, c: Byte, six: Byte)
    requires m !in {DOT, SOLIDUS} && c !in {DOT, SOLIDUS} && six !in {DOT, SOLIDUS}
    ensures Normal([m, SOLIDUS, c, SOLIDUS, DOT, DOT, SOLIDUS, six]) == [m, SOLIDUS, six]
  {
    hide Clean, SegmentLength;
    var r1, r2, r3: Bytes := [six], [DOT, DOT, SOLIDUS, six], [c, SOLIDUS, DOT, DOT, SOLIDUS, six];
    CleanSegment([], [m], r3);
    CleanSegment([m, SOLIDUS], [c], r2);
    CleanSegment([m, SOLIDUS, c, SOLIDUS], TWO_DOTS, r1);
    CleanLast([m, SOLIDUS], r1);
    LastSlashIs([m, SOLIDUS, c, SOLIDUS], 3, 2);
    assert [m] + [SOLIDUS] + r3 == [m, SOLIDUS, c, SOLIDUS, DOT, DOT, SOLIDUS, six];
    assert [c] + [SOLIDUS] + r2 == r3 && TWO_DOTS + [SOLIDUS] + r1 == r2;
    assert [] + [m] + [SOLIDUS] == [m, SOLIDUS];
    assert [m, SOLIDUS] + [c] + [SOLIDUS] == [m, SOLIDUS, c, SOLIDUS];
    assert Backup([m, SOLIDUS, c, SOLIDUS]) == [m, SOLIDUS];
    assert [m, SOLIDUS] + r1 == [m, SOLIDUS, six];
  }

  lemma {:induction false} CleanSegment(out: Bytes, s: Bytes, rest: Bytes)
    requires SOLIDUS !in s
    ensures Clean(out, s + [SOLIDUS] + rest)
            == Clean(if s == TWO_DOTS then Backup(out) else if s == ONE_DOT then out else out + s + [SOLIDUS], rest)
  {
    hide SegmentLength, Backup, Clean;
    var all := s + [SOLIDUS] + rest;
    SegmentOf(s, [SOLIDUS] + rest);
    assert all == s + ([SOLIDUS] + rest);
    assert all[..|s|] == s && all[|s| + 1..] == rest;
    CleanFirst(out, all);
  }

  lemma {:induction false} CleanLast(out: Bytes, s: Bytes)
    requires SOLIDUS !in s && s != [] && s != ONE_DOT && s != TWO_DOTS
    ensures Clean(out, s) == out + s
  {
    hide SegmentLength, Backup, Clean;
    SegmentOf(s, []);
    assert s + [] == s && s[..|s|] == s;
    CleanFirst(out, s);
  }

  // ------------------------------------------------------------ resolving references

  /** The parts of a URI with their delimiters; a part that is not there is empty. */
  datatype Uri = Uri(scheme: Bytes, auth: Bytes, path: Bytes, query: Bytes, frag: Bytes)
  {
    function Base(): Bytes { scheme + auth + path + query }

    function Whole(): Bytes { Base() + frag }
  }

  function Resolved(r: Uri, base: Uri): Uri {
    if r.scheme != [] then r.(path := Normal(r.path))
    else if r.auth != [] then Uri(base.scheme, r.auth, Normal(r.path), r.query, r.frag)
    else if r.path == [] then Uri(base.scheme, base.auth, base.path, if r.query == [] then base.query else r.query, r.frag)
    else if r.path[0] == SOLIDUS then Uri(base.scheme, base.auth, Normal(r.path), r.query, r.frag)
    else
      var joining := if base.auth != [] && base.path == [] then [SOLIDUS] else [];
      var kept := base.path[..AfterLastSlash(base.path, |base.path|)];
      Uri(base.scheme, base.auth, Normal(joining + kept + r.path), r.query, r.frag)
  }

  /** The merge of section 5.2.3: behind the last slash of the base path, or behind one slash if the base has an
      authority and no path. */
  function Merge(base: Uri, path: Bytes): Bytes {
    if base.auth != [] && base.path == [] then [SOLIDUS] + path
    else if SOLIDUS !in base.path then path
    else base.path[..|base.path| - LastSegmentLength(base.path)] + path
  }

  function LastSegmentLength(s: Bytes): (n: nat)
    ensures n <= |s|
  {
    if s == [] || s[|s| - 1] == SOLIDUS then 0 else 1 + LastSegmentLength(s[..|s| - 1])
  }

  /** The transformation of section 5.2.2, which sets the target's parts one after the other. */
  function Transform(r: Uri, base: Uri): Uri {
    var path :=
      if r.scheme != [] || r.auth != [] then RemoveDots(r.path, [])
      else if r.path == [] then base.path
      else if StartsWith(r.path, [SOLIDUS]) then RemoveDots(r.path, [])
      else RemoveDots(Merge(base, r.path), []);
    var query := if r.scheme == [] && r.auth == [] && r.path == [] && r.query == [] then base.query else r.query;
    Uri(if r.scheme != [] then r.scheme else base.scheme,
        if r.scheme != [] || r.auth != [] then r.auth else base.auth,
        path, query, r.frag)
  }

  predicate EmptyOrAbsolute(path: Bytes) {
    path == [] || path[0] == SOLIDUS
  }

  lemma {:induction false} LastSegmentIsBehindLastSlash(s: Bytes, n: nat)
    requires n <= |s|
    ensures AfterLastSlash(s, n) == n - LastSegmentLength(s[..n])
  {
    if n > 0 && s[n - 1] != SOLIDUS {
      assert s[..n][..n - 1] == s[..n - 1];
      LastSegmentIsBehindLastSlash(s, n - 1);
    }
  }

  /** The path from which a resolution removes dot segments. */
  function PathToClean(r: Uri, base: Uri): Bytes {
    if r.scheme != [] || r.auth != [] || EmptyOrAbsolute(r.path) then r.path else Merge(base, r.path)
  }

  /** Resolution follows the standard exactly when the path that it cleans keeps pace. */
  lemma {:induction false} ResolveExactlyWhen(r: Uri, base: Uri)
    ensures Resolved(r, base) == Transform(r, base) <==> KeepsPace(PathToClean(r, base), false, 0, false)
  {
    hide Normal, RemoveDots, KeepsPace, Merge, AfterLastSlash;
    var path := PathToClean(r, base);
    NormalExactlyWhen(path);
    NothingLost(false, 0);
    NothingToRemove();
    NormalOfNothing();
    JoinedIsMerged(r.path, base);
  }

  lemma {:induction false} NormalOfNothing()
    ensures Normal([]) == []
  {
  }

  /** The path behind the last slash of the base, as the program joins it. */
  lemma {:induction false} JoinedIsMerged(path: Bytes, base: Uri)
    ensures var joining := if base.auth != [] && base.path == [] then [SOLIDUS] else [];
            joining + base.path[..AfterLastSlash(base.path, |base.path|)] + path == Merge(base, path)
  {
    LastSegmentIsBehindLastSlash(base.path, |base.path|);
    assert base.path[..|base.path|] == base.path;
    var k := AfterLastSlash(base.path, |base.path|);
    var kept := base.path[..k];
    assert [] + kept + path == kept + path;
    assert base.path == [] ==> kept == [] && [SOLIDUS] + kept + path == [SOLIDUS] + path;
    if SOLIDUS !in base.path {
      LastSlashAt(base.path, |base.path|, 0);
      assert kept == [] && kept + path == path;
    }
  }

  /** For a base with an authority and an empty or absolute path that is the case for every reference which has no
      scheme or authority itself, or whose path is empty or absolute. */
  lemma {:induction false} ResolveIsStandard(r: Uri, base: Uri)
    requires r.scheme != [] || r.auth != [] ==> EmptyOrAbsolute(r.path)
    requires base.auth != [] && EmptyOrAbsolute(base.path)
    ensures Resolved(r, base) == Transform(r, base)
  {
    hide Clean, RemoveDots, KeepsPace;
    var path := PathToClean(r, base);
    ResolveExactlyWhen(r, base);
    NothingLost(false, 0);
    if !EmptyOrAbsolute(r.path) {
      var n := |base.path| - LastSegmentLength(base.path);
      LastSegmentIsBehindLastSlash(base.path, |base.path|);
      assert base.path[..|base.path|] == base.path;
      assert base.path != [] ==> n > 0;
    }
    if path != [] {
      AbsoluteKeepsPace(path);
    }
  }

  /** A reference with a scheme and a relative path: "urn:a/../b" becomes "urn:b", by the standard "urn:/b". */
  lemma {:induction false} SchemeWithRelativePath(base: Uri)
    ensures var scheme: Bytes, path: Bytes := [0x75, 0x72, 0x6E, COLON], [0x61, SOLIDUS, DOT, DOT, SOLIDUS, 0x62];
            var r := Uri(scheme, [], path, [], []);
            && Divides(r.Whole(), 4, 4, 10, 10)
            && Resolved(r, base).path == [0x62] && Transform(r, base).path == [SOLIDUS, 0x62]
  {
    var scheme: Bytes, path: Bytes := [0x75, 0x72, 0x6E, COLON], [0x61, SOLIDUS, DOT, DOT, SOLIDUS, 0x62];
    hide Normal, RemoveDots, Divides;
    RelativePathsDiffer();
    SchemeWithRelativePathDivides();
  }

  lemma {:induction false} SchemeWithRelativePathDivides()
    ensures var scheme: Bytes, path: Bytes := [0x75, 0x72, 0x6E, COLON], [0x61, SOLIDUS, DOT, DOT, SOLIDUS, 0x62];
            Divides(Uri(scheme, [], path, [], []).Whole(), 4, 4, 10, 10)
  {
    var scheme: Bytes, path: Bytes := [0x75, 0x72, 0x6E, COLON], [0x61, SOLIDUS, DOT, DOT, SOLIDUS, 0x62];
    var text: Bytes := [0x75, 0x72, 0x6E, COLON, 0x61, SOLIDUS, DOT, DOT, SOLIDUS, 0x62];
    assert Uri(scheme, [], path, [], []).Whole() == text;
    assert Divides(text, 4, 4, 10, 10);
  }

  // ------------------------------------------------------------ parsing

  /** The first position from `from` on of one of the bytes in `stops`. */
  method Find(uri: Bytes, from: nat, stops: set<Byte>) returns (pos: nat)
    requires from <= |uri|
    ensures from <= pos <= |uri| && (pos < |uri| ==> uri[pos] in stops)
    ensures forall k :: from <= k < pos ==> uri[k] !in stops
  {
    pos := from;
    while pos < |uri|
      invariant from <= pos <= |uri| && forall k :: from <= k < pos ==> uri[k] !in stops
    {
      if uri[pos] in stops {
        break;
      }
      pos := pos + 1;
    }
  }

  lemma {:induction false} PathJoined(front: seq<Bytes>, more: seq<Bytes>)
    ensures Path(front + more) == Path(front) + Path(more)
    decreases |front|
  {
    if front == [] {
      assert front + more == more;
    } else {
      assert (front + more)[1..] == front[1..] + more;
      PathJoined(front[1..], more);
      assert [SOLIDUS] + front[0] + (Path(front[1..]) + Path(more)) == [SOLIDUS] + front[0] + Path(front[1..]) + Path(more);
    }
  }

  /** A relative path takes the place of the last segment of the base, and the stack of segments does the rest. */
  lemma {:induction false} RelativeByStack(r: Uri, base: Uri, front: seq<Bytes>, last: Bytes, segments: seq<Bytes>)
    requires AreSegments(front) && SOLIDUS !in last && AreSegments(segments) && segments != [] && segments[0] != []
    requires base.path == Path(front + [last])
    requires r.scheme == [] && r.auth == [] && [SOLIDUS] + r.path == Path(segments)
    ensures Resolved(r, base) == Uri(base.scheme, base.auth, Path(Stacked(front + segments, [])), r.query, r.frag)
  {
    hide Normal, Stacked, AfterLastSlash, Path;
    KeptOfBase(front, last);
    SecondOfPath(segments);
    PathJoined(front, segments);
    var kept := Path(front) + [SOLIDUS];
    assert r.path == ([SOLIDUS] + r.path)[1..];
    assert kept + r.path == Path(front) + ([SOLIDUS] + r.path);
    assert [] + kept + r.path == kept + r.path;
    NormalByStack(front + segments);
  }

  lemma {:induction false} KeptOfBase(front: seq<Bytes>, last: Bytes)
    requires SOLIDUS !in last
    ensures var out := Path(front + [last]); out != [] && out[..AfterLastSlash(out, |out|)] == Path(front) + [SOLIDUS]
  {
    hide Path, AfterLastSlash;
    PathAppended(front, last);
    var out, k := Path(front + [last]), |Path(front)| + 1;
    assert out[k - 1] == SOLIDUS && forall i :: k <= i < |out| ==> out[i] == last[i - k];
    LastSlashIs(out, |out|, k);
    assert out[..k] == Path(front) + [SOLIDUS];
  }

  lemma {:induction false} SecondOfPath(segments: seq<Bytes>)
    requires AreSegments(segments) && segments != [] && segments[0] != []
    ensures |Path(segments)| > 1 && Path(segments)[1] == segments[0][0] != SOLIDUS
  {
  }

  /** The other kinds of references, path by path: what comes from the base and what is the reference's own. */
  lemma {:induction false} OtherReferences(r: Uri, base: Uri, segments: seq<Bytes>)
    requires AreSegments(segments) && r.path == Path(segments)
    ensures var own := Path(Stacked(segments, []));
            && (r.scheme != [] ==> Resolved(r, base) == Uri(r.scheme, r.auth, own, r.query, r.frag))
            && (r.scheme == [] && r.auth != [] ==> Resolved(r, base) == Uri(base.scheme, r.auth, own, r.query, r.frag))
            && (r.scheme == [] && r.auth == [] && segments != [] ==> Resolved(r, base) == Uri(base.scheme, base.auth, own, r.query, r.frag))
            && (r.scheme == [] && r.auth == [] && segments == [] && r.query != [] ==>
                  Resolved(r, base) == Uri(base.scheme, base.auth, base.path, r.query, r.frag))
            && (r.scheme == [] && r.auth == [] && segments == [] && r.query == [] ==>
                  Resolved(r, base) == Uri(base.scheme, base.auth, base.path, base.query, r.frag))
  {
    hide Normal, Stacked, AfterLastSlash;
    NormalByStack(segments);
  }

  /** The base is the whole without the fragment, and the whole is all five parts one behind the other. */
  lemma {:induction false} BaseAndWhole(u: Uri)
    ensures u.Whole() == u.scheme + (u.auth + (u.path + (u.query + u.frag)))
    ensures u.Base() == u.Whole()[..|u.Whole()| - |u.frag|]
  {
    assert u.Whole() == u.scheme + (u.auth + (u.path + (u.query + u.frag)));
    assert u.Base() + u.frag == u.Whole();
  }

  /** `Parse` leaves an absolute path without its dot segments and any other path as it is. */
  lemma {:induction false} DividedPathExactly(path: Bytes, segments: seq<Bytes>)
    ensures AreSegments(segments) && path == Path(segments) ==> DividedPath(path) == Path(Stacked(segments, []))
    ensures path == [] || path[0] != SOLIDUS ==> DividedPath(path) == path
  {
    hide Normal, Stacked;
    NormalOfNothing();
    assert [SOLIDUS][0] == SOLIDUS;
    if AreSegments(segments) && path == Path(segments) {
      assert segments != [] ==> path[0] == SOLIDUS;
      NormalByStack(segments);
    }
  }

  const QUESTION: Byte := 0x3F
  const SHARP: Byte := 0x23

  /** Where a text divides: a scheme up to the first colon unless another delimiter comes before that, an authority
      behind two slashes, a path, a query from a question mark on, and a fragment from a sharp on. */
  predicate Divides(uri: Bytes, a: nat, b: nat, c: nat, d: nat) {
    && a <= b <= c <= d <= |uri|
    && SchemeEnds(uri, a)
    && (if b == a then !(a + 1 < |uri| && uri[a] == SOLIDUS && uri[a + 1] == SOLIDUS)
        else a + 2 <= b && uri[a] == SOLIDUS && uri[a + 1] == SOLIDUS && Until(uri, a + 2, b, {SOLIDUS, QUESTION, SHARP}))
    && Until(uri, b, c, {QUESTION, SHARP})
    && (if c < |uri| && uri[c] == QUESTION then c < d && Until(uri, c + 1, d, {SHARP}) else d == c)
  }

  predicate Until(uri: Bytes, from: nat, to: nat, stops: set<Byte>) {
    && from <= to <= |uri| && (to < |uri| ==> uri[to] in stops)
    && forall k :: from <= k < to ==> uri[k] !in stops
  }

  predicate SchemeEnds(uri: Bytes, a: nat) {
    if a == 0 then
      forall k :: 0 <= k < |uri| && uri[k] == COLON ==> exists j :: 0 <= j < k && uri[j] in {SOLIDUS, QUESTION, SHARP}
    else
      && a <= |uri| && uri[a - 1] == COLON
      && forall k :: 0 <= k < a - 1 ==> uri[k] !in {COLON, SOLIDUS, QUESTION, SHARP}
  }

  /** A text divides in one way. */
  lemma {:induction false} DividesOnce(uri: Bytes, a: nat, b: nat, c: nat, d: nat, a2: nat, b2: nat, c2: nat, d2: nat)
    requires Divides(uri, a, b, c, d) && Divides(uri, a2, b2, c2, d2)
    ensures a == a2 && b == b2 && c == c2 && d == d2
  {
    SchemeEndsOnce(uri, a, a2);
    if b != a {
      UntilOnce(uri, a + 2, b, b2, {SOLIDUS, QUESTION, SHARP});
    }
    UntilOnce(uri, b, c, c2, {QUESTION, SHARP});
    if c < |uri| && uri[c] == QUESTION {
      UntilOnce(uri, c + 1, d, d2, {SHARP});
    }
  }

  lemma {:induction false} UntilOnce(uri: Bytes, from: nat, to: nat, to2: nat, stops: set<Byte>)
    requires Until(uri, from, to, stops) && Until(uri, from, to2, stops)
    ensures to == to2
  {
    assert to < |uri| ==> uri[to] in stops;
    assert to2 < |uri| ==> uri[to2] in stops;
  }

  lemma {:induction false} SchemeEndsOnce(uri: Bytes, a: nat, a2: nat)
    requires SchemeEnds(uri, a) && SchemeEnds(uri, a2)
    ensures a == a2
  {
    if a > 0 {
      assert uri[a - 1] == COLON;
    }
    if a2 > 0 {
      assert uri[a2 - 1] == COLON;
    }
  }

  // ------------------------------------------------------------ the documented expression

  /** The scheme by the expression `(([^:/?#]+):)?`: one byte at least in front of the colon, and none of the other
      delimiters; it is taken wherever it can be. */
  predicate IsScheme(uri: Bytes, a: nat) {
    && 2 <= a <= |uri| && uri[a - 1] == COLON
    && forall k :: 0 <= k < a - 1 ==> uri[k] !in {COLON, SOLIDUS, QUESTION, SHARP}
  }

  predicate SchemeByExpression(uri: Bytes, a: nat) {
    IsScheme(uri, a) || (a == 0 && forall k :: 0 <= k <= |uri| ==> !IsScheme(uri, k))
  }

  /** The division by the documented expression `^(([^:/?#]+):)?(//([^/?#]*))?([^?#]*)(\?([^#]*))?(#(.*))?`. */
  predicate DividesByExpression(uri: Bytes, a: nat, b: nat, c: nat, d: nat) {
    && a <= b <= c <= d <= |uri|
    && SchemeByExpression(uri, a)
    && (if StartsWith(uri[a..], [SOLIDUS, SOLIDUS]) then a + 2 <= b && Until(uri, a + 2, b, {SOLIDUS, QUESTION, SHARP}) else b == a)
    && Until(uri, b, c, {QUESTION, SHARP})
    && (if c < |uri| && uri[c] == QUESTION then c < d && Until(uri, c + 1, d, {SHARP}) else d == c)
  }

  lemma {:induction false} SameRest(uri: Bytes, a: nat, b: nat, c: nat, d: nat)
    ensures Divides(uri, a, b, c, d) && SchemeByExpression(uri, a) <==> DividesByExpression(uri, a, b, c, d) && SchemeEnds(uri, a)
  {
    if a <= |uri| {
      var rest := uri[a..];
      assert StartsWith(rest, [SOLIDUS, SOLIDUS]) <==> a + 1 < |uri| && uri[a] == SOLIDUS && uri[a + 1] == SOLIDUS;
    }
  }

  /** Where the scheme ends the same way. */
  lemma {:induction false} SameScheme(uri: Bytes, a: nat)
    requires !StartsWith(uri, [COLON])
    ensures SchemeEnds(uri, a) <==> SchemeByExpression(uri, a)
  {
    assert uri != [] ==> uri[0] != COLON;
    if a == 0 && SchemeEnds(uri, 0) {
      forall k | 0 <= k <= |uri| ensures !IsScheme(uri, k) {
        if k > 0 && uri[k - 1] == COLON {
          var j :| 0 <= j < k - 1 && uri[j] in {SOLIDUS, QUESTION, SHARP};
        }
      }
    }
    if a == 0 && SchemeByExpression(uri, 0) {
      forall k | 0 <= k < |uri| && uri[k] == COLON ensures exists j :: 0 <= j < k && uri[j] in {SOLIDUS, QUESTION, SHARP} {
        var c := FirstOf(uri, 0, {COLON, SOLIDUS, QUESTION, SHARP});
        assert uri[k] in {COLON, SOLIDUS, QUESTION, SHARP};
        assert c <= k;
        assert !IsScheme(uri, c + 1);
      }
    }
  }

  /** The first position from `from` on of one of the bytes in `stops`. */
  function FirstOf(uri: Bytes, from: nat, stops: set<Byte>): (pos: nat)
    requires from <= |uri|
    ensures Until(uri, from, pos, stops)
    decreases |uri| - from
  {
    if from == |uri| || uri[from] in stops then from else FirstOf(uri, from + 1, stops)
  }

  /** Every text divides by the expression. */
  lemma {:induction false} DivisionExists(uri: Bytes) returns (a: nat, b: nat, c: nat, d: nat)
    ensures DividesByExpression(uri, a, b, c, d)
  {
    hide FirstOf;
    if k :| 0 <= k <= |uri| && IsScheme(uri, k) {
      a := k;
    } else {
      a := 0;
    }
    b := if StartsWith(uri[a..], [SOLIDUS, SOLIDUS]) then FirstOf(uri, a + 2, {SOLIDUS, QUESTION, SHARP}) else a;
    c := FirstOf(uri, b, {QUESTION, SHARP});
    d := if c < |uri| && uri[c] == QUESTION then FirstOf(uri, c + 1, {SHARP}) else c;
  }

  /** The program divides a text as the expression does exactly when the text does not begin with a colon. */
  lemma {:induction false} ExpressionExactlyWhen(uri: Bytes)
    ensures (forall a, b, c, d :: Divides(uri, a, b, c, d) <==> DividesByExpression(uri, a, b, c, d)) <==> !StartsWith(uri, [COLON])
  {
    hide Until;
    if StartsWith(uri, [COLON]) {
      var a, b, c, d := DivisionExists(uri);
      assert uri[0] == COLON;
      assert a == 0 && !SchemeEnds(uri, 0);
      assert !Divides(uri, a, b, c, d);
    } else {
      forall a, b, c, d ensures Divides(uri, a, b, c, d) <==> DividesByExpression(uri, a, b, c, d) {
        if 0 <= a <= b <= c <= d {
          SameScheme(uri, a);
          SameRest(uri, a, b, c, d);
        }
      }
    }
  }

  /** The text ":a": the scheme is the colon, by the expression all is path. */
  lemma {:induction false} ColonInFront()
    ensures var uri: Bytes := [COLON, 0x61]; Divides(uri, 1, 1, 2, 2) && DividesByExpression(uri, 0, 0, 2, 2)
  {
    var uri: Bytes := [COLON, 0x61];
    assert uri[0..] == uri;
    forall k | 0 <= k <= |uri| ensures !IsScheme(uri, k) {
      assert k == 2 ==> uri[1] != COLON;
    }
  }

  /** Behind the scheme with its colon, if there is one. */
  method FindScheme(uri: Bytes) returns (start: nat)
    ensures start <= |uri| && SchemeEnds(uri, start)
  {
    start := 0;
    var pos1 := Find(uri, 0, {COLON});
    if pos1 != |uri| {
      var pos2 := Find(uri, 0, {SOLIDUS, QUESTION, SHARP});
      if pos1 < pos2 {
        start := pos1 + 1;
      }
    }
  }

  // ------------------------------------------------------------ one buffer for all parts

  function DividedPath(path: Bytes): Bytes {
    if StartsWith(path, [SOLIDUS]) then Normal(path) else path
  }

  /** The parts at these positions, an absolute path being normalized. */
  function Divided(uri: Bytes, a: nat, b: nat, c: nat, d: nat): Uri
    requires a <= b <= c <= d <= |uri|
  {
    Uri(uri[..a], uri[a..b], DividedPath(uri[b..c]), uri[c..d], uri[d..])
  }

  /** Parts lie one behind the other, with bytes of no account between them, and end in front of `end`. */
  ghost predicate Laid(b: Bytes, at: seq<nat>, parts: seq<Bytes>, end: nat) {
    && |at| == |parts| && end <= |b|
    && (forall k :: 0 <= k < |at| ==> PartIn(b, at[k], parts[k]))
    && (forall k :: 0 <= k < |at| ==> at[k] + |parts[k]| < if k + 1 < |at| then at[k + 1] else end)
  }

  lemma {:induction false} NoneLaid(b: Bytes)
    ensures Laid(b, [], [], 0)
  {
  }

  lemma {:induction false} PartStays(before: Bytes, now: Bytes, p: nat, s: Bytes, end: nat)
    requires PartIn(before, p, s) && p + |s| < end <= |before| == |now| && before[..end] == now[..end]
    ensures PartIn(now, p, s)
  {
    assert now[p..p + |s|] == now[..end][p..p + |s|];
    assert before[p..p + |s|] == before[..end][p..p + |s|];
    assert now[p + |s|] == now[..end][p + |s|];
  }

  lemma {:induction false} AllBefore(b: Bytes, at: seq<nat>, parts: seq<Bytes>, end: nat, j: nat, k: nat)
    requires Laid(b, at, parts, end) && j <= k < |at|
    ensures at[j] + |parts[j]| < if k + 1 < |at| then at[k + 1] else end
    decreases k - j
  {
    if j < k {
      AllBefore(b, at, parts, end, j, k - 1);
    }
  }

  /** What is written behind the parts leaves them. */
  lemma {:induction false} StillLaid(before: Bytes, now: Bytes, at: seq<nat>, parts: seq<Bytes>, end: nat)
    requires Laid(before, at, parts, end) && |before| == |now| && before[..end] == now[..end]
    ensures Laid(now, at, parts, end)
  {
    forall k | 0 <= k < |at| ensures PartIn(now, at[k], parts[k]) {
      AllBefore(before, at, parts, end, k, |at| - 1);
      PartStays(before, now, at[k], parts[k], end);
    }
  }

  lemma {:induction false} OneMoreLaid(b: Bytes, at: seq<nat>, parts: seq<Bytes>, end: nat, p: nat, s: Bytes)
    requires Laid(b, at, parts, end) && end <= p && PartIn(b, p, s)
    ensures Laid(b, at + [p], parts + [s], p + |s| + 1)
  {
    var at2, parts2 := at + [p], parts + [s];
    forall k | 0 <= k < |at2|
      ensures PartIn(b, at2[k], parts2[k]) && at2[k] + |parts2[k]| < if k + 1 < |at2| then at2[k + 1] else p + |s| + 1
    {
      if k < |at| {
        assert at2[k] == at[k] && parts2[k] == parts[k];
        AllBefore(b, at, parts, end, k, k);
      }
    }
  }

  lemma {:induction false} PartsOfLaid(b: Bytes, at: seq<nat>, parts: seq<Bytes>, end: nat)
    requires Laid(b, at, parts, end)
    ensures forall k :: 0 <= k < |at| ==> PartIn(b, at[k], parts[k])
  {
  }

  lemma {:induction false} FiveLaid(b: Bytes, at: seq<nat>, parts: seq<Bytes>, end: nat)
    requires Laid(b, at, parts, end) && |at| == 5
    ensures |parts| == 5 && PartIn(b, at[0], parts[0]) && PartIn(b, at[1], parts[1]) && PartIn(b, at[2], parts[2])
    ensures PartIn(b, at[3], parts[3]) && PartIn(b, at[4], parts[4])
    ensures forall k :: 0 <= k < 5 ==> NUL !in parts[k]
  {
    PartsOfLaid(b, at, parts, end);
  }

  lemma {:induction false} SevenLaid(b: Bytes, at: seq<nat>, parts: seq<Bytes>, p: nat, s: Bytes, q: nat, t: Bytes, end: nat)
    requires |at| == |parts| == 5 && Laid(b, at + [p] + [q], parts + [s] + [t], end)
    ensures PartIn(b, at[0], parts[0]) && PartIn(b, at[1], parts[1]) && PartIn(b, at[2], parts[2])
    ensures PartIn(b, at[3], parts[3]) && PartIn(b, at[4], parts[4]) && PartIn(b, p, s) && PartIn(b, q, t)
  {
    hide PartIn;
    var all, texts := at + [p] + [q], parts + [s] + [t];
    PartsOfLaid(b, all, texts, end);
    assert all[0] == at[0] && all[1] == at[1] && all[2] == at[2] && all[3] == at[3] && all[4] == at[4] && all[5] == p && all[6] == q;
    assert PartIn(b, all[0], texts[0]) && PartIn(b, all[1], texts[1]) && PartIn(b, all[2], texts[2]);
    assert PartIn(b, all[3], texts[3]) && PartIn(b, all[4], texts[4]) && PartIn(b, all[5], texts[5]) && PartIn(b, all[6], texts[6]);
  }

  /** What stands in for the third part touches no other. */
  lemma {:induction false} CleanLaid(before: Bytes, now: Bytes, at: seq<nat>, parts: seq<Bytes>, end: nat, s: Bytes)
    requires Laid(before, at, parts, end) && |at| >= 3 && |before| == |now|
    requires |s| <= |parts[2]| && PartIn(now, at[2], s)
    requires before[..at[2]] == now[..at[2]] && before[at[2] + |parts[2]| + 1..] == now[at[2] + |parts[2]| + 1..]
    ensures Laid(now, at, parts[2 := s], end)
  {
    forall k | 0 <= k < |at| && k != 2 ensures PartIn(now, at[k], parts[k]) {
      if k < 2 {
        AllBefore(before, at, parts, end, k, 1);
        PartStays(before, now, at[k], parts[k], at[2]);
      } else {
        AllBehind(before, at, parts, end, 2, k);
        PartBehindStays(before, now, at[k], parts[k], at[2] + |parts[2]| + 1);
      }
    }
  }

  lemma {:induction false} AllBehind(b: Bytes, at: seq<nat>, parts: seq<Bytes>, end: nat, j: nat, k: nat)
    requires Laid(b, at, parts, end) && j < k < |at|
    ensures at[j] + |parts[j]| < at[k]
    decreases k - j
  {
    if j + 1 < k {
      AllBehind(b, at, parts, end, j, k - 1);
      assert at[k - 1] + |parts[k - 1]| < at[k];
    }
  }

  lemma {:induction false} PartBehindStays(before: Bytes, now: Bytes, p: nat, s: Bytes, from: nat)
    requires PartIn(before, p, s) && from <= p && |before| == |now| && from <= |now| && before[from..] == now[from..]
    ensures PartIn(now, p, s)
  {
    SliceOfTail(before, from, p, p + |s|);
    SliceOfTail(now, from, p, p + |s|);
    assert now[p + |s|] == now[from..][p - from + |s|];
    assert before[p + |s|] == before[from..][p - from + |s|];
  }

  lemma {:induction false} SliceOfTail(b: Bytes, from: nat, i: nat, j: nat)
    requires from <= i <= j <= |b|
    ensures b[i..j] == b[from..][i - from..j - from]
  {
  }

  lemma {:induction false} CleanIsShorter(out: Bytes, rest: Bytes)
    ensures |Clean(out, rest)| <= |out| + |rest|
    decreases |rest|
  {
    hide Clean, SegmentLength;
    if rest == [] {
      NothingLeft(out);
    } else {
      var n := SegmentLength(rest);
      CleanStep(out, rest);
      CleanIsShorter(Placed(out, rest[..n], if n < |rest| then [SOLIDUS] else []), if n < |rest| then rest[n + 1..] else []);
    }
  }

  lemma {:induction false} ResolvedIsShort(r: Uri, b: Uri)
    ensures |Resolved(r, b).Base()| <= |Resolved(r, b).Whole()| <= |r.Whole()| + |b.Whole()| + 1
    ensures Resolved(r, b).frag == r.frag
  {
    hide Clean, AfterLastSlash;
    forall path ensures |Normal(path)| <= |path| {
      CleanIsShorter([], path);
    }
  }

  /** Behind the last slash. */
  method AfterLastSlashOf(path: Bytes) returns (lastslashpos: nat)
    ensures lastslashpos == AfterLastSlash(path, |path|) <= |path|
  {
    lastslashpos := |path|;
    while lastslashpos > 0 && path[lastslashpos - 1] != SOLIDUS
      invariant lastslashpos <= |path| && forall i :: lastslashpos <= i < |path| ==> path[i] != SOLIDUS
    {
      lastslashpos := lastslashpos - 1;
    }
    LastSlashAt(path, |path|, lastslashpos);
  }

  /** A URI with its parts, the URI without the fragment and the whole URI in one buffer. */
  class GenericUri {
    var buffer: array<Byte>
    var scheme: nat
    var auth: nat
    var path: nat
    var query: nat
    var frag: nat
    var base: nat
    var uri: nat

    /** All seven texts are in the buffer. */
    ghost predicate Holds(u: Uri)
      reads this, buffer
    {
      && PartIn(buffer[..], scheme, u.scheme) && PartIn(buffer[..], auth, u.auth) && PartIn(buffer[..], path, u.path)
      && PartIn(buffer[..], query, u.query) && PartIn(buffer[..], frag, u.frag)
      && PartIn(buffer[..], base, u.Base()) && PartIn(buffer[..], uri, u.Whole())
    }

    /** Room for a text of this length: its parts, the URI without fragment and the whole, each with a NUL. */
    constructor Allocate(len: nat)
      ensures fresh(buffer) && buffer.Length == 3 * len + 7 && scheme == 0
    {
      buffer := new Byte[3 * len + 7];
      scheme, auth, path, query, frag, base, uri := 0, 1, 2, 3, 4, 5, 6;
    }

    /** Copies a text to `to`, puts a NUL behind it and tells where the next may begin. */
    method CopyPart(to: nat, s: Bytes, ghost at: seq<nat>, ghost parts: seq<Bytes>, ghost end: nat) returns (next: nat)
      requires Laid(buffer[..], at, parts, end) && end <= to && to + |s| < buffer.Length && NUL !in s
      modifies buffer
      ensures next == to + |s| + 1 && Laid(buffer[..], at + [to], parts + [s], next) && buffer[..to] == old(buffer[..to])
    {
      ghost var before := buffer[..];
      CopyBytes(to, s);
      buffer[to + |s|] := NUL;
      next := to + |s| + 1;
      assert buffer[..end] == before[..end];
      StillLaid(before, buffer[..], at, parts, end);
      OneMoreLaid(buffer[..], at, parts, end, to, s);
    }

    /** The length of the part at `p`, and a copy of its bytes. */
    method Part(p: nat, ghost s: Bytes) returns (r: Bytes)
      requires PartIn(buffer[..], p, s)
      ensures r == s && NUL !in r
    {
      var n := StrLen(buffer, p, s);
      r := buffer[p..p + n];
    }

    /** Puts the URI without the fragment, and then the whole, behind the parts. */
    method SetBaseAndUri(ghost u: Uri)
      requires Laid(buffer[..], [scheme, auth, path, query, frag], [u.scheme, u.auth, u.path, u.query, u.frag], base)
      requires base + |u.Base()| + 1 + |u.Whole()| < buffer.Length
      modifies this`uri, buffer
      ensures Holds(u)
    {
      hide Laid, PartIn;
      ghost var at, parts := [scheme, auth, path, query, frag], [u.scheme, u.auth, u.path, u.query, u.frag];
      FiveLaid(buffer[..], at, parts, base);
      var s1 := Part(scheme, u.scheme);
      var s2 := Part(auth, u.auth);
      var s3 := Part(path, u.path);
      var s4 := Part(query, u.query);
      var s5 := Part(frag, u.frag);
      var next := CopyPart(base, s1 + s2 + s3 + s4, at, parts, base);
      uri := next;
      next := CopyPart(uri, s1 + s2 + s3 + s4 + s5, at + [base], parts + [u.Base()], next);
      SevenLaid(buffer[..], at, parts, base, u.Base(), uri, u.Whole(), next);
    }

    /** Removes the dot segments of the path, which is the third part. */
    method CleanPath(ghost at: seq<nat>, ghost parts: seq<Bytes>, ghost end: nat)
      requires Laid(buffer[..], at, parts, end) && |at| >= 3 && at[2] == path
      modifies buffer
      ensures Laid(buffer[..], at, parts[2 := Normal(parts[2])], end) && |Normal(parts[2])| <= |parts[2]|
    {
      ghost var before := buffer[..];
      RemoveDotSegments(buffer, path, parts[2]);
      CleanLaid(before, buffer[..], at, parts, end, Normal(parts[2]));
    }

    /** Divides a text into its parts. */
    method Parse(uri: Bytes) returns (a: nat, b: nat, c: nat, d: nat)
      requires NUL !in uri && buffer.Length == 3 * |uri| + 7 && scheme == 0
      modifies this`auth, this`path, this`query, this`frag, this`base, this`uri, buffer
      ensures Divides(uri, a, b, c, d) && Holds(Divided(uri, a, b, c, d))
    {
      hide SchemeEnds, Normal, Laid, PartIn, DividedPath;
      a, b := ParseFront(uri);
      c := ParsePath(uri, a, b);
      d := ParseBack(uri, b, c, [scheme, auth, path], [uri[..a], uri[a..b], DividedPath(uri[b..c])]);
      ghost var u := Divided(uri, a, b, c, d);
      assert |u.Whole()| <= |uri| && |u.Base()| <= |uri|;
      assert [scheme, auth, path] + [query] + [frag] == [scheme, auth, path, query, frag];
      assert [uri[..a], uri[a..b], DividedPath(uri[b..c])] + [uri[c..d]] + [uri[d..]] == [u.scheme, u.auth, u.path, u.query, u.frag];
      SetBaseAndUri(u);
    }

    /** The scheme and the authority. */
    method ParseFront(uri: Bytes) returns (a: nat, b: nat)
      requires NUL !in uri && buffer.Length == 3 * |uri| + 7 && scheme == 0
      modifies this`auth, this`path, buffer
      ensures a <= b <= |uri| && SchemeEnds(uri, a)
      ensures if StartsWith(uri[a..], [SOLIDUS, SOLIDUS]) then b >= a + 2 && Until(uri, a + 2, b, {SOLIDUS, QUESTION, SHARP}) else b == a
      ensures Laid(buffer[..], [scheme, auth], [uri[..a], uri[a..b]], path) && path == b + 2
    {
      hide SchemeEnds, Laid, PartIn;
      NoneLaid(buffer[..]);
      a := FindScheme(uri);
      auth := CopyPart(scheme, uri[..a], [], [], 0);
      assert [] + [scheme] == [scheme] && [] + [uri[..a]] == [uri[..a]];
      b := a;
      if a + 1 < |uri| && uri[a] == SOLIDUS && uri[a + 1] == SOLIDUS {
        b := Find(uri, a + 2, {SOLIDUS, QUESTION, SHARP});
      }
      path := CopyPart(auth, uri[a..b], [scheme], [uri[..a]], auth);
      assert [scheme] + [auth] == [scheme, auth] && [uri[..a]] + [uri[a..b]] == [uri[..a], uri[a..b]];
    }

    /** The path, normalized if it is absolute. */
    method ParsePath(uri: Bytes, a: nat, b: nat) returns (c: nat)
      requires NUL !in uri && buffer.Length == 3 * |uri| + 7 && a <= b <= |uri| && path == b + 2
      requires Laid(buffer[..], [scheme, auth], [uri[..a], uri[a..b]], path)
      modifies this`query, buffer
      ensures b <= c && Until(uri, b, c, {QUESTION, SHARP})
      ensures Laid(buffer[..], [scheme, auth, path], [uri[..a], uri[a..b], DividedPath(uri[b..c])], query)
      ensures query == path + |DividedPath(uri[b..c])| + 1 <= c + 3
    {
      hide Laid, PartIn, DividedPath;
      c := Find(uri, b, {QUESTION, SHARP});
      query := CopyPart(path, uri[b..c], [scheme, auth], [uri[..a], uri[a..b]], path);
      CleanIfAbsolute(uri[b..c], [scheme, auth], [uri[..a], uri[a..b]]);
      assert [scheme, auth] + [path] == [scheme, auth, path];
      assert [uri[..a], uri[a..b]] + [DividedPath(uri[b..c])] == [uri[..a], uri[a..b], DividedPath(uri[b..c])];
    }

    /** The query and the fragment. */
    method ParseBack(uri: Bytes, b: nat, c: nat, ghost at: seq<nat>, ghost parts: seq<Bytes>) returns (d: nat)
      requires NUL !in uri && buffer.Length == 3 * |uri| + 7 && b <= c <= |uri| && query <= c + 3
      requires Laid(buffer[..], at, parts, query) && Until(uri, b, c, {QUESTION, SHARP})
      modifies this`frag, this`base, buffer
      ensures c <= d <= |uri|
      ensures if StartsWith(uri[c..], [QUESTION]) then d >= c + 1 && Until(uri, c + 1, d, {SHARP}) else d == c
      ensures Laid(buffer[..], at + [query] + [frag], parts + [uri[c..d]] + [uri[d..]], base) && base <= |uri| + 5
    {
      hide Laid, PartIn;
      d := c;
      if c < |uri| && uri[c] == QUESTION {
        d := Find(uri, c + 1, {SHARP});
      }
      frag := CopyPart(query, uri[c..d], at, parts, query);
      base := CopyPart(frag, uri[d..], at + [query], parts + [uri[c..d]], frag);
    }

    /** An absolute path is normalized, and the next part may begin behind what is left of it. */
    method CleanIfAbsolute(text: Bytes, ghost at: seq<nat>, ghost parts: seq<Bytes>)
      requires |at| == |parts| == 2 && Laid(buffer[..], at + [path], parts + [text], query) && query == path + |text| + 1
      modifies this`query, buffer
      ensures Laid(buffer[..], at + [path], parts + [DividedPath(text)], query)
      ensures query == path + |DividedPath(text)| + 1 <= old(query)
    {
      hide Normal;
      ghost var at3, parts3 := at + [path], parts + [text];
      assert PartIn(buffer[..], at3[2], parts3[2]);
      if |text| > 0 && buffer[path] == SOLIDUS {
        assert text[0] == SOLIDUS;
        CleanPath(at3, parts3, query);
        assert parts3[2 := Normal(text)] == parts + [Normal(text)];
        assert PartIn(buffer[..], at3[2], (parts + [Normal(text)])[2]);
        var n := StrLen(buffer, path, Normal(text));
        query := path + n + 1;
      }
    }

    /** The first two parts. */
    method LayFront(s1: Bytes, s2: Bytes)
      requires scheme == 0 && |s1| + |s2| + 2 <= buffer.Length && NUL !in s1 && NUL !in s2
      modifies this`auth, this`path, buffer
      ensures Laid(buffer[..], [scheme, auth], [s1, s2], path) && path == |s1| + |s2| + 2
    {
      hide Laid;
      NoneLaid(buffer[..]);
      auth := CopyPart(scheme, s1, [], [], 0);
      assert [] + [scheme] == [scheme] && [] + [s1] == [s1];
      path := CopyPart(auth, s2, [scheme], [s1], auth);
      assert [scheme] + [auth] == [scheme, auth] && [s1] + [s2] == [s1, s2];
    }

    method LayPath(s3: Bytes, ghost s1: Bytes, ghost s2: Bytes)
      requires Laid(buffer[..], [scheme, auth], [s1, s2], path) && path + |s3| < buffer.Length && NUL !in s3
      modifies this`query, buffer
      ensures Laid(buffer[..], [scheme, auth, path], [s1, s2, s3], query) && query == path + |s3| + 1
    {
      hide Laid;
      query := CopyPart(path, s3, [scheme, auth], [s1, s2], path);
      assert [scheme, auth] + [path] == [scheme, auth, path] && [s1, s2] + [s3] == [s1, s2, s3];
    }

    /** A path behind what is kept of the base path, and behind a slash if that is to join them. */
    method LayMerged(slash: bool, kept: Bytes, s3: Bytes, ghost s1: Bytes, ghost s2: Bytes)
      requires Laid(buffer[..], [scheme, auth], [s1, s2], path) && path + 1 + |kept| + |s3| < buffer.Length && NUL !in kept && NUL !in s3
      modifies this`query, buffer
      ensures var merged := (if slash then [SOLIDUS] else []) + kept + s3;
              Laid(buffer[..], [scheme, auth, path], [s1, s2, merged], query) && query == path + |merged| + 1
    {
      hide Laid;
      ghost var before := buffer[..];
      ghost var merged := (if slash then [SOLIDUS] else []) + kept + s3;
      var pos := path;
      assert buffer[path..pos] == [];
      if slash {
        pos := Append(path, pos, [SOLIDUS], []);
      }
      pos := Append(path, pos, kept, if slash then [SOLIDUS] else []);
      pos := Append(path, pos, s3, (if slash then [SOLIDUS] else []) + kept);
      EndPart(path, pos, merged);
      query := pos + 1;
      StillLaid(before, buffer[..], [scheme, auth], [s1, s2], path);
      OneMoreLaid(buffer[..], [scheme, auth], [s1, s2], path, path, merged);
      assert [scheme, auth] + [path] == [scheme, auth, path] && [s1, s2] + [merged] == [s1, s2, merged];
    }

    /** Bytes behind those from `from` on. */
    method Append(from: nat, to: nat, s: Bytes, ghost front: Bytes) returns (next: nat)
      requires from <= to && to + |s| < buffer.Length && buffer[from..to] == front
      modifies buffer
      ensures next == to + |s| && buffer[from..next] == front + s && buffer[..from] == old(buffer[..from])
    {
      CopyBytes(to, s);
      next := to + |s|;
      assert buffer[from..to] == buffer[..to][from..] == front;
      assert buffer[from..next] == buffer[from..to] + buffer[to..next];
      assert buffer[..from] == buffer[..to][..from];
    }

    method EndPart(from: nat, to: nat, ghost s: Bytes)
      requires from <= to < buffer.Length && buffer[from..to] == s && NUL !in s
      modifies buffer
      ensures PartIn(buffer[..], from, s) && buffer[..from] == old(buffer[..from])
    {
      buffer[to] := NUL;
    }

    method LayQuery(s4: Bytes, ghost s1: Bytes, ghost s2: Bytes, ghost s3: Bytes)
      requires Laid(buffer[..], [scheme, auth, path], [s1, s2, s3], query) && query + |s4| < buffer.Length && NUL !in s4
      modifies this`frag, buffer
      ensures Laid(buffer[..], [scheme, auth, path, query], [s1, s2, s3, s4], frag) && frag == query + |s4| + 1
    {
      hide Laid;
      frag := CopyPart(query, s4, [scheme, auth, path], [s1, s2, s3], query);
      assert [scheme, auth, path] + [query] == [scheme, auth, path, query] && [s1, s2, s3] + [s4] == [s1, s2, s3, s4];
    }

    /** Path and query, and then the dot segments of the path, with the query behind it. */
    method LayPathAndQuery(s3: Bytes, s4: Bytes, ghost s1: Bytes, ghost s2: Bytes)
      requires Laid(buffer[..], [scheme, auth], [s1, s2], path) && path + |s3| + 1 + |s4| < buffer.Length && NUL !in s3 && NUL !in s4
      modifies this`query, this`frag, buffer
      ensures Laid(buffer[..], [scheme, auth, path, query], [s1, s2, Normal(s3), s4], frag) && frag == path + |s3| + |s4| + 2
    {
      hide Laid, Normal;
      LayPath(s3, s1, s2);
      LayQuery(s4, s1, s2, s3);
      CleanPath([scheme, auth, path, query], [s1, s2, s3, s4], frag);
      assert [s1, s2, s3, s4][2 := Normal(s3)] == [s1, s2, Normal(s3), s4];
    }

    /** A path whose dot segments are removed, and then the query. */
    method CleanThenQuery(s4: Bytes, ghost s1: Bytes, ghost s2: Bytes, ghost s3: Bytes)
      requires Laid(buffer[..], [scheme, auth, path], [s1, s2, s3], query) && query + |s4| < buffer.Length && NUL !in s4
      modifies this`frag, buffer
      ensures Laid(buffer[..], [scheme, auth, path, query], [s1, s2, Normal(s3), s4], frag) && frag == query + |s4| + 1
    {
      hide Laid, Normal;
      CleanPath([scheme, auth, path], [s1, s2, s3], query);
      assert [s1, s2, s3][2 := Normal(s3)] == [s1, s2, Normal(s3)];
      LayQuery(s4, s1, s2, Normal(s3));
    }

    /** The first four parts of a resolved reference, of which this is the reference. */
    method LayParts(resuri: GenericUri, baseuri: GenericUri, ghost r: Uri, ghost b: Uri)
      requires Holds(r) && baseuri.Holds(b) && resuri != this && resuri != baseuri
      requires resuri.buffer != buffer && resuri.buffer != baseuri.buffer && resuri.scheme == 0
      requires resuri.buffer.Length == 3 * (|r.Whole()| + |b.Whole()| + 1) + 7
      modifies resuri`auth, resuri`path, resuri`query, resuri`frag, resuri.buffer
      ensures var u := Resolved(r, b);
              Laid(resuri.buffer[..], [0, resuri.auth, resuri.path, resuri.query], [u.scheme, u.auth, u.path, u.query], resuri.frag)
      ensures resuri.frag + |r.frag| <= |r.Whole()| + |b.Whole()| + 5
    {
      hide PartIn, Laid, Normal, AfterLastSlash;
      var s1 := Part(scheme, r.scheme);
      var s2 := Part(auth, r.auth);
      var s3 := Part(path, r.path);
      var s4 := Part(query, r.query);
      if |s1| != 0 {
        resuri.LayFront(s1, s2);
        resuri.LayPathAndQuery(s3, s4, s1, s2);
      } else {
        s1 := baseuri.Part(baseuri.scheme, b.scheme);
        if |s2| != 0 {
          resuri.LayFront(s1, s2);
          resuri.LayPathAndQuery(s3, s4, s1, s2);
        } else {
          s2 := baseuri.Part(baseuri.auth, b.auth);
          resuri.LayFront(s1, s2);
          LayRest(resuri, baseuri, r, b, s3, s4);
        }
      }
    }

    /** Path and query behind the scheme and the authority of the base. */
    method LayRest(resuri: GenericUri, baseuri: GenericUri, ghost r: Uri, ghost b: Uri, s3: Bytes, s4: Bytes)
      requires baseuri.Holds(b) && resuri != baseuri && resuri.buffer != baseuri.buffer && resuri.scheme == 0
      requires resuri.buffer.Length == 3 * (|r.Whole()| + |b.Whole()| + 1) + 7
      requires r.scheme == [] && r.auth == [] && s3 == r.path && s4 == r.query && NUL !in s3 && NUL !in s4
      requires Laid(resuri.buffer[..], [0, resuri.auth], [b.scheme, b.auth], resuri.path)
      requires resuri.path == |b.scheme| + |b.auth| + 2
      modifies resuri`query, resuri`frag, resuri.buffer
      ensures var u := Resolved(r, b);
              Laid(resuri.buffer[..], [0, resuri.auth, resuri.path, resuri.query], [u.scheme, u.auth, u.path, u.query], resuri.frag)
      ensures resuri.frag + |r.frag| <= |r.Whole()| + |b.Whole()| + 5
    {
      hide PartIn, Laid, Normal, AfterLastSlash;
      var t := baseuri.Part(baseuri.path, b.path);
      if |s3| == 0 {
        resuri.LayPath(t, b.scheme, b.auth);
        var q := baseuri.Part(baseuri.query, b.query);
        resuri.LayQuery(if |s4| == 0 then q else s4, b.scheme, b.auth, b.path);
      } else if s3[0] == SOLIDUS {
        resuri.LayPath(s3, b.scheme, b.auth);
        resuri.CleanThenQuery(s4, b.scheme, b.auth, s3);
      } else {
        var a := baseuri.Part(baseuri.auth, b.auth);
        var lastslashpos := AfterLastSlashOf(t);
        var slash := |a| != 0 && |t| == 0;
        resuri.LayMerged(slash, t[..lastslashpos], s3, b.scheme, b.auth);
        resuri.CleanThenQuery(s4, b.scheme, b.auth, (if slash then [SOLIDUS] else []) + t[..lastslashpos] + s3);
      }
    }

    /** This reference against a base: a new URI, whose parts come from both and whose path is cleaned where it lies. */
    method Resolve(baseuri: GenericUri, ghost r: Uri, ghost b: Uri) returns (resuri: GenericUri)
      requires Holds(r) && baseuri.Holds(b)
      ensures fresh(resuri) && fresh(resuri.buffer) && resuri.Holds(Resolved(r, b))
    {
      hide PartIn, Laid, Normal, Resolved, AfterLastSlash;
      var own := Part(uri, r.Whole());
      var other := baseuri.Part(baseuri.uri, b.Whole());
      resuri := new GenericUri.Allocate(|own| + |other| + 1);
      ResolvedIsShort(r, b);
      LayParts(resuri, baseuri, r, b);
      var f := Part(frag, r.frag);
      ghost var u := Resolved(r, b);
      ghost var at, parts := [resuri.scheme, resuri.auth, resuri.path, resuri.query], [u.scheme, u.auth, u.path, u.query];
      resuri.base := resuri.CopyPart(resuri.frag, f, at, parts, resuri.frag);
      assert at + [resuri.frag] == [resuri.scheme, resuri.auth, resuri.path, resuri.query, resuri.frag];
      assert parts + [r.frag] == [u.scheme, u.auth, u.path, u.query, u.frag];
      resuri.SetBaseAndUri(u);
    }

    method CopyBytes(to: nat, s: Bytes)
      requires to + |s| <= buffer.Length
      modifies buffer
      ensures buffer[..to] == old(buffer[..to]) && buffer[to..to + |s|] == s
    {
      for k := 0 to |s|
        invariant buffer[..to] == old(buffer[..to]) && buffer[to..to + k] == s[..k]
      {
        buffer[to + k] := s[k];
      }
    }
  }

  /** Nothing is lost: unless the path is absolute and has dot segments, the parts make up the text again. */
  lemma {:induction false} PartsMakeUpText(uri: Bytes, a: nat, b: nat, c: nat, d: nat)
    requires Divides(uri, a, b, c, d)
    ensures Uri(uri[..a], uri[a..b], uri[b..c], uri[c..d], uri[d..]).Whole() == uri
  {
  }
}
