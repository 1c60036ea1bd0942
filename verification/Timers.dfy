/**
 Timers: an ordered set of objects whose keys change, so each leaves the set before its key does. The manager keeps
 a log of what it delivered, over which the promises of a whole run are stated.
 */
module Timers {
  import opened Options

  /** A callback is known by a number. */
  type Callback = int

  /** A delivery: whose callback, when, for which deadline and at which cycle. */
  datatype Firing = Firing(timer: TimerFunc, time: nat, deadline: nat, cycle: nat)

  /** Deadline first, then address. */
  predicate Before(a: TimerFunc, b: TimerFunc)
    reads a, b
  {
    a.nextCallTime < b.nextCallTime || (a.nextCallTime == b.nextCallTime && a.address < b.address)
  }

  ghost predicate Sorted(ts: seq<TimerFunc>)
    reads ts
  {
    forall i, j :: 0 <= i < j < |ts| ==> Before(ts[i], ts[j])
  }

  class TimerFunc {
    const address: nat
    const oneshot: bool
    const manager: TimerManager
    var cycle: nat
    var nextCallTime: nat
    var cb: Option<Callback>

    constructor (address: nat, ms: nat, cb: Callback, oneshot: bool, manager: TimerManager, now: nat)
      ensures this.address == address && this.oneshot == oneshot && this.manager == manager
      ensures cycle == ms && nextCallTime == now + ms && this.cb == Some(cb)
    {
      this.address, this.oneshot, this.manager := address, oneshot, manager;
      this.cycle, this.nextCallTime, this.cb := ms, now + ms, Some(cb);
    }

    /** The timer gives up its callback and its place. */
    method Cancel() returns (ok: bool)
      requires manager.Valid() && this in manager.known
      modifies this`cb, manager`timers, manager`cancelled
      ensures manager.Valid() && cb.None? && ok == old(cb.Some?)
      ensures forall t :: t in manager.timers <==> t in old(manager.timers) && t != this
      ensures ok ==> this in manager.cancelled && manager.cancelled[this] == |manager.log|
    {
      hide TimerManager.FiredBefore, TimerManager.LogOk, Sorted, Before;
      if cb.None? {
        return false;
      }
      var i := manager.Find(this);
      if i < |manager.timers| {
        manager.Erase(this, i);
      }
      cb := None;
      manager.cancelled := manager.cancelled[this := |manager.log|];
      return true;
    }

    /** A new deadline, one cycle from now. */
    method Refresh(now: nat) returns (ok: bool)
      requires manager.Valid() && this in manager.known && manager.clock <= now
      modifies this`nextCallTime, this`cycle, manager`timers, manager`clock
      ensures manager.Valid() && ok == old(cb.Some?) && manager.clock == now && cycle == old(cycle)
      ensures nextCallTime == if ok then now + cycle else old(nextCallTime)
      ensures forall t :: t in manager.timers <==> t in old(manager.timers)
    {
      hide TimerManager.Core;
      manager.Advance(now);
      if cb.None? {
        return false;
      }
      var i := manager.Find(this);
      if i == |manager.timers| {
        return false;
      }
      manager.Erase(this, i);
      manager.DeadlineIsBehind(this);
      SetKey(cycle, now + cycle);
      var _ := manager.Insert(this);
      return true;
    }

    /** Outside the set the key may change, as long as the cycle began behind every firing. */
    method SetKey(cycle: nat, nextCallTime: nat)
      requires manager.Core() && this in manager.known && this !in manager.timers && cycle <= nextCallTime
      requires cb.Some? ==> manager.FiredBefore(this, nextCallTime - cycle)
      modifies this`cycle, this`nextCallTime
      ensures manager.Core() && this.cycle == cycle && this.nextCallTime == nextCallTime
    {
      this.cycle, this.nextCallTime := cycle, nextCallTime;
    }

    /** A new cycle, counted from now or from where the last one began. It answers false but when there was nothing
        to do. */
    method Reset(ms: nat, fromNow: bool, now: nat) returns (ok: bool)
      requires manager.Valid() && this in manager.known && manager.clock <= now
      modifies this`nextCallTime, this`cycle, manager`timers, manager`clock, manager`frontCalls
      ensures manager.Valid() && manager.clock == now
      ensures ok <==> old(cycle) == ms && !fromNow
      ensures if ok || cb.None? then nextCallTime == old(nextCallTime) && cycle == old(cycle)
              else cycle == ms && nextCallTime == (if fromNow then now else old(nextCallTime - cycle)) + ms
      ensures forall t :: t in manager.timers <==> t in old(manager.timers)
      ensures manager.frontCalls == old(manager.frontCalls)
                                    + if !ok && cb.Some? && manager.timers[0] == this && manager.TellsFront() then 1 else 0
    {
      hide TimerManager.Core;
      manager.Advance(now);
      if cycle == ms && !fromNow {
        return true;
      }
      if cb.None? {
        return false;
      }
      var i := manager.Find(this);
      if i == |manager.timers| {
        return false;
      }
      manager.Erase(this, i);
      manager.DeadlineIsBehind(this);
      var start := if fromNow then now else nextCallTime - cycle;
      SetKey(ms, start + ms);
      manager.Queue(this);
      return false;
    }
  }

  class TimerManager {
    var timers: seq<TimerFunc>
    var tickled: bool
    var hasFrontCallback: bool
    var frontCalls: nat
    ghost var known: set<TimerFunc>  // all timers ever made
    ghost var log: seq<Firing>
    ghost var cancelled: map<TimerFunc, nat>  // how much had been delivered when a timer was cancelled
    ghost var clock: nat

    /** What holds between any two operations. */
    ghost predicate Valid()
      reads this, known
    {
      Core() && forall t :: t in known && t.cb.Some? ==> t in timers
    }

    /** What holds even while expired timers are out of the set. */
    ghost predicate Core()
      reads this, known
    {
      && (forall t :: t in timers ==> t in known && t.cb.Some?)
      && Sorted(timers)
      && (forall t, u :: t in known && u in known && t.address == u.address ==> t == u)
      && (forall t :: t in known ==> TimerOk(t))
      && LogOk()
    }

    /** A timer's deadline is at least one cycle behind the start of the clock and behind every firing of it; one
        that fires once has no callback after that, and one that was cancelled has none and is delivered no more. */
    ghost predicate TimerOk(t: TimerFunc)
      reads `log, `cancelled, t
    {
      && t.manager == this && t.cycle <= t.nextCallTime
      && (forall k :: 0 <= k < |log| && log[k].timer == t ==>
            t.oneshot ==> t.cb.None?)
      && (t.cb.Some? ==> FiredBefore(t, t.nextCallTime - t.cycle))
      && (t in cancelled ==> t.cb.None? && forall k :: cancelled[t] <= k < |log| ==> log[k].timer != t)
    }

    /** All firings of a timer were at most at that time. */
    ghost predicate FiredBefore(t: TimerFunc, time: nat)
      reads `log
    {
      forall k :: 0 <= k < |log| && log[k].timer == t ==> log[k].time <= time
    }

    /** Nothing fired early, nothing fires once twice, and firings of a timer are a cycle apart. */
    ghost predicate LogOk()
      reads `log, `known, `clock
    {
      && (forall k :: 0 <= k < |log| ==> log[k].timer in known && log[k].deadline <= log[k].time <= clock)
      && (forall j, k :: 0 <= j < k < |log| && log[j].timer == log[k].timer ==>
            !log[j].timer.oneshot && log[j].time + log[k].cycle <= log[k].time)
    }

    /** Every firing of a timer is at least one cycle in front of its deadline, and not later than the clock. */
    lemma {:induction false} DeadlineIsBehind(t: TimerFunc)
      requires Core() && t in known
      ensures t.cycle <= t.nextCallTime && FiredBefore(t, clock)
      ensures t.cb.Some? ==> FiredBefore(t, t.nextCallTime - t.cycle)
    {
      hide Sorted;
      assert TimerOk(t);
    }

    constructor (now: nat)
      ensures Valid() && timers == [] && log == [] && known == {} && clock == now
      ensures !tickled && !hasFrontCallback && frontCalls == 0
    {
      timers, tickled, hasFrontCallback, frontCalls := [], false, false, 0;
      known, log, cancelled, clock := {}, [], map[], now;
    }

    /** The position of a timer in the set, found by the order; the size of the set if it is not there. */
    method Find(t: TimerFunc) returns (i: nat)
      requires Core() && t in known
      ensures i <= |timers| && (i < |timers| ==> timers[i] == t) && (i == |timers| ==> t !in timers)
    {
      i := 0;
      while i < |timers|
        invariant i <= |timers| && forall j :: 0 <= j < i ==> timers[j] != t
      {
        if !Before(timers[i], t) && !Before(t, timers[i]) {
          return;
        }
        i := i + 1;
      }
    }

    method Erase(t: TimerFunc, i: nat)
      requires Core() && i < |timers| && timers[i] == t
      modifies this`timers
      ensures Core() && forall u :: u in timers <==> u in old(timers) && u != t
    {
      hide TimerOk, LogOk;
      Erased(timers, i);
      timers := timers[..i] + timers[i + 1..];
    }

    /** Puts a timer that is not in the set where it belongs. */
    method Insert(t: TimerFunc) returns (i: nat)
      requires Core() && t in known && t !in timers && t.cb.Some?
      modifies this`timers
      ensures Core() && i <= |old(timers)| && timers == old(timers)[..i] + [t] + old(timers)[i..]
      ensures forall u :: u in timers <==> u in old(timers) || u == t
    {
      hide TimerOk, LogOk;
      i := 0;
      while i < |timers| && Before(timers[i], t)
        invariant i <= |timers| && forall j :: 0 <= j < i ==> Before(timers[j], t)
      {
        i := i + 1;
      }
      Inserted(timers, t, i);
      timers := timers[..i] + [t] + timers[i..];
    }

    /** A timer that comes to stand first is reported. */
    predicate TellsFront()
      reads this
    {
      hasFrontCallback && !tickled
    }

    method SetOnTimerInsertedAtFront(some: bool)
      requires Valid()
      modifies this`hasFrontCallback
      ensures Valid() && hasFrontCallback == some
    {
      hasFrontCallback := some;
    }

    method HasTimer() returns (has: bool)
      requires Valid()
      ensures has <==> exists t :: t in timers
    {
      hide Core;
      has := timers != [];
      assert has ==> timers[0] in timers;
    }

    /** Puts a timer in the set and reports it if it stands first there. */
    method Queue(t: TimerFunc)
      requires Core() && t in known && t !in timers && t.cb.Some?
      modifies this`timers, this`frontCalls
      ensures Core() && forall u :: u in timers <==> u in old(timers) || u == t
      ensures timers != [] && frontCalls == old(frontCalls) + if timers[0] == t && TellsFront() then 1 else 0
    {
      var i := Insert(t);
      var atFront := i == 0 && !tickled;
      if atFront && hasFrontCallback {
        frontCalls := frontCalls + 1;
      }
    }
  
    /** A new timer in the set; its object lies at an address of its own. */
    method AddTimer(address: nat, cycle: nat, cb: Callback, oneshot: bool, now: nat) returns (t: TimerFunc)
      requires Valid() && clock <= now && forall u :: u in known ==> u.address != address
      modifies this`timers, this`known, this`clock, this`frontCalls
      ensures Valid() && clock == now && fresh(t) && known == old(known) + {t}
      ensures t.cycle == cycle && t.nextCallTime == now + cycle && t.cb == Some(cb) && t.oneshot == oneshot
      ensures forall u :: u in timers <==> u in old(timers) || u == t
      ensures timers != [] && frontCalls == old(frontCalls) + if timers[0] == t && TellsFront() then 1 else 0
    {
      t := new TimerFunc(address, cycle, cb, oneshot, this, now);
      clock := now;
      known := known + {t};
      Queue(t);
    }

    /** How long it is until the earliest deadline; nothing if there is none or it has passed. */
    method GetNextTimer(now: nat) returns (wait: nat)
      requires Valid()
      modifies this`tickled
      ensures Valid() && !tickled
      ensures timers == [] ==> wait == 0
      ensures timers != [] ==>
                exists t :: t in timers && (forall u :: u in timers ==> t.nextCallTime <= u.nextCallTime)
                            && wait == if t.nextCallTime <= now then 0 else t.nextCallTime - now
    {
      tickled := false;
      if timers == [] {
        return 0;
      }
      var next := timers[0];
      forall t | t in timers ensures next.nextCallTime <= t.nextCallTime {
        EarliestFirst(timers, t);
      }
      return if now >= next.nextCallTime then 0 else next.nextCallTime - now;
    }

    /** Delivers one expired timer: it fires for the last time or gets a new deadline. */
    method Fire(t: TimerFunc, now: nat) returns (cb: Callback)
      requires Core() && t in known && t !in timers && t.cb.Some? && t.nextCallTime <= now && clock == now
      modifies this`timers, this`log, t`nextCallTime, t`cb
      ensures Core() && cb == old(t.cb.value)
      ensures log == old(log) + [Firing(t, now, old(t.nextCallTime), t.cycle)]
      ensures if t.oneshot then t.cb.None? && timers == old(timers)
              else t.cb == old(t.cb) && t.nextCallTime == now + t.cycle && forall u :: u in timers <==> u in old(timers) || u == t
    {
      cb := t.cb.value;
      Record(t, now);
      if !t.oneshot {
        var _ := Insert(t);
      }
    }

    /** What firing does to the timer and the log. */
    method Record(t: TimerFunc, now: nat)
      requires Core() && t in known && t !in timers && t.cb.Some? && t.nextCallTime <= now && clock == now
      modifies this`log, t`nextCallTime, t`cb
      ensures Core() && log == old(log) + [Firing(t, now, old(t.nextCallTime), t.cycle)]
      ensures if t.oneshot then t.cb.None? else t.cb == old(t.cb) && t.nextCallTime == now + t.cycle
    {
      hide Sorted;
      ghost var before := log;
      log := log + [Firing(t, now, t.nextCallTime, t.cycle)];
      if !t.oneshot {
        t.nextCallTime := now + t.cycle;
      } else {
        t.cb := None;
      }
      forall u | u in known && u != t ensures TimerOk(u) {
        assert old(TimerOk(u));
      }
    }

    /** Takes the expired timers, which are those at the front, out of the set. */
    method TakeExpired(now: nat) returns (expired: seq<TimerFunc>)
      requires Core()
      modifies this`timers
      ensures Core() && old(timers) == expired + timers
      ensures forall t :: t in expired ==> t.nextCallTime <= now && t !in timers && t in known && t.cb.Some?
      ensures forall t :: t in timers ==> t.nextCallTime > now
      ensures forall t :: t in old(timers) <==> t in expired || t in timers
      ensures forall j, k :: 0 <= j < k < |expired| ==> expired[j] != expired[k]
    {
      hide TimerOk, LogOk, Before, Sorted;
      expired := [];
      ghost var n, all := 0, timers;
      while timers != [] && timers[0].nextCallTime <= now
        invariant 0 <= n <= |all| && expired == all[..n] && timers == all[n..]
        invariant forall k :: 0 <= k < n ==> all[k].nextCallTime <= now
        decreases |timers|
      {
        assert all[..n + 1] == all[..n] + [all[n]] && all[n..][1..] == all[n + 1..];
        expired := expired + [timers[0]];
        timers := timers[1..];
        n := n + 1;
      }
      assert all == expired + timers;
      Split(expired, timers);
      forall t | t in timers ensures t.nextCallTime > now {
        EarliestFirst(timers, t);
      }
    }

    /** The timer is as it was. */
    twostate predicate Kept(t: TimerFunc)
      reads t
    {
      t.cycle == old(t.cycle) && t.nextCallTime == old(t.nextCallTime) && t.cb == old(t.cb)
    }

    /** The timer was delivered. */
    twostate predicate Served(t: TimerFunc, now: nat)
      reads t
    {
      t.cycle == old(t.cycle)
      && if t.oneshot then t.cb.None? else t.nextCallTime == now + t.cycle && t.cb == old(t.cb)
    }

    /** Delivers one timer after the other. */
    method FireAll(expired: seq<TimerFunc>, now: nat) returns (cbs: seq<Callback>)
      requires Core() && clock == now
      requires forall t :: t in expired ==> t.nextCallTime <= now && t !in timers && t in known && t.cb.Some?
      requires forall j, k :: 0 <= j < k < |expired| ==> expired[j] != expired[k]
      modifies this`timers, this`log, set t | t in expired
      ensures Core()
      ensures |cbs| == |expired| && forall k :: 0 <= k < |expired| ==> Some(cbs[k]) == old(expired[k].cb)
      ensures |log| == |old(log)| + |expired| && log[..|old(log)|] == old(log)
      ensures forall k :: 0 <= k < |expired| ==>
                log[|old(log)| + k] == Firing(expired[k], now, old(expired[k].nextCallTime), old(expired[k].cycle))
      ensures forall t :: t in expired ==> Served(t, now)
      ensures forall t :: t in timers <==> t in old(timers) || (t in expired && !t.oneshot)
    {
      hide Sorted, Before, Core;
      cbs := [];
      ghost var before := log;
      ghost var callbacks := seq(|expired|, k requires 0 <= k < |expired| reads expired => expired[k].cb);
      ghost var firings := seq(|expired|, k requires 0 <= k < |expired| reads expired =>
        Firing(expired[k], now, expired[k].nextCallTime, expired[k].cycle));
      for i := 0 to |expired|
        invariant Core() && |cbs| == i && log == before + firings[..i]
        invariant forall k :: 0 <= k < i ==> Some(cbs[k]) == callbacks[k]
        invariant forall k :: 0 <= k < i ==> Served(expired[k], now)
        invariant forall k :: i <= k < |expired| ==> Kept(expired[k]) && expired[k] !in timers
        invariant forall t :: t in timers <==> t in old(timers) || (t in expired[..i] && !t.oneshot)
      {
        var cb := Fire(expired[i], now);
        cbs := cbs + [cb];
        assert expired[..i + 1] == expired[..i] + [expired[i]];
        assert firings[..i + 1] == firings[..i] + [firings[i]];
        assert before + firings[..i] + [firings[i]] == before + firings[..i + 1];
      }
      assert expired[..|expired|] == expired;
    }

    /** The clock has gone on. */
    ghost method Advance(now: nat)
      requires Core() && clock <= now
      modifies this`clock
      ensures Core() && clock == now
    {
      hide Sorted, Before;
      clock := now;
    }

    /** Delivers the callbacks of all timers whose deadline has passed, in the order of deadlines: each is delivered
        once. Recurring timers go back into the set with a new deadline, the others have no callback any more. */
    method ListExpiredCb(now: nat) returns (cbs: seq<Callback>, ghost due: seq<TimerFunc>)
      requires Valid() && clock <= now
      modifies this`timers, this`log, this`clock, set t | t in timers
      ensures Valid() && clock == now
      ensures due <= old(timers) && forall t :: t in old(timers) ==> (t in due <==> old(t.nextCallTime) <= now)
      ensures |cbs| == |due| && forall k :: 0 <= k < |due| ==> Some(cbs[k]) == old(due[k].cb)
      ensures |log| == |old(log)| + |due| && log[..|old(log)|] == old(log)
      ensures forall k :: 0 <= k < |due| ==>
                log[|old(log)| + k] == Firing(due[k], now, old(due[k].nextCallTime), old(due[k].cycle))
      ensures forall t :: t in timers <==> t in old(timers) && (t in due ==> !t.oneshot)
      ensures forall t :: t in old(timers) ==> if t in due then Served(t, now) else Kept(t)
    {
      hide Core;
      Advance(now);
      var expired := TakeExpired(now);
      due := expired;
      cbs := FireAll(expired, now);
    }
  }

  lemma {:induction false} EarliestFirst(ts: seq<TimerFunc>, t: TimerFunc)
    requires Sorted(ts) && t in ts
    ensures ts[0].nextCallTime <= t.nextCallTime
  {
    var k :| 0 <= k < |ts| && ts[k] == t;
    assert k > 0 ==> Before(ts[0], ts[k]);
  }

  lemma {:induction false} Erased(ts: seq<TimerFunc>, i: nat)
    requires Sorted(ts) && i < |ts|
    ensures var rest := ts[..i] + ts[i + 1..];
            Sorted(rest) && forall u :: u in rest <==> u in ts && u != ts[i]
  {
    var rest := ts[..i] + ts[i + 1..];
    forall a, b | 0 <= a < b < |rest| ensures Before(rest[a], rest[b]) {
      assert rest[a] == ts[if a < i then a else a + 1] && rest[b] == ts[if b < i then b else b + 1];
    }
    forall u | u in ts && u != ts[i] ensures u in rest {
      var k :| 0 <= k < |ts| && ts[k] == u;
      assert u == rest[if k < i then k else k - 1];
    }
    forall u | u in rest ensures u != ts[i] {
      var k :| 0 <= k < |rest| && rest[k] == u;
      assert rest[k] == ts[if k < i then k else k + 1];
      assert if k < i then Before(ts[k], ts[i]) else Before(ts[i], ts[k + 1]);
    }
  }

  lemma {:induction false} Split(expired: seq<TimerFunc>, rest: seq<TimerFunc>)
    requires Sorted(expired + rest)
    ensures Sorted(rest) && (forall t :: t in expired ==> t !in rest)
    ensures forall j, k :: 0 <= j < k < |expired| ==> expired[j] != expired[k]
    ensures forall t :: t in expired || t in rest ==> t in expired + rest
  {
    var all, n := expired + rest, |expired|;
    assert forall k :: 0 <= k < |rest| ==> all[n + k] == rest[k];
    forall t | t in expired ensures t !in rest {
      var j :| 0 <= j < n && expired[j] == t;
      forall k | 0 <= k < |rest| ensures rest[k] != t {
        assert Before(all[j], all[n + k]);
      }
    }
    forall j, k | 0 <= j < k < n ensures expired[j] != expired[k] {
      assert Before(all[j], all[k]);
    }
    forall j, k | 0 <= j < k < |rest| ensures Before(rest[j], rest[k]) {
      assert Before(all[n + j], all[n + k]);
    }
  }

  lemma {:induction false} Inserted(ts: seq<TimerFunc>, t: TimerFunc, i: nat)
    requires Sorted(ts) && i <= |ts| && (forall u :: u in ts ==> u.address != t.address)
    requires (forall j :: 0 <= j < i ==> Before(ts[j], t)) && (i < |ts| ==> !Before(ts[i], t))
    ensures Sorted(ts[..i] + [t] + ts[i..])
  {
    var all := ts[..i] + [t] + ts[i..];
    assert i < |ts| ==> Before(t, ts[i]);
    forall j | i <= j < |ts| ensures Before(t, ts[j]) {
      assert j > i ==> Before(ts[i], ts[j]);
    }
    forall a, b | 0 <= a < b < |all| ensures Before(all[a], all[b]) {
      assert a < i ==> all[a] == ts[a];
      assert b > i ==> all[b] == ts[b - 1];
      assert b < i ==> all[b] == ts[b];
      assert a > i ==> all[a] == ts[a - 1];
    }
  }
}
