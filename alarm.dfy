/**
 * The NachOS alarm: a wake table from threads to the tick at which each may
 * run again. `waitUntil` registers the caller; the timer interrupt handler
 * readies every thread whose tick has come and drops its entry.
 */
module Threads {

  /** Threads are designated by handles into the scheduler's thread arena. */
  type ThreadId = nat

  /** Every thread of `s` occurs once. */
  ghost predicate NoDuplicates(s: seq<ThreadId>)
  {
    forall i, j :: 0 <= i < j < |s| ==> s[i] != s[j]
  }

  /** The wake table after thread `t` calls waitUntil(x) at tick `now`. */
  function Register(m: map<ThreadId, int>, t: ThreadId, now: int, x: int): (r: map<ThreadId, int>)
    ensures x <= 0 ==> r == m
    ensures x > 0 ==> r.Keys == m.Keys + {t} && r[t] == now + x
    ensures forall u :: u in m && u != t ==> u in r && r[u] == m[u]
  {
    if x > 0 then m[t := now + x] else m
  }

  /** The threads a timer interrupt at tick `now` makes ready. */
  function Expired(m: map<ThreadId, int>, now: int): (r: set<ThreadId>)
    ensures r <= m.Keys
    ensures forall t :: t in m ==> (t in r <==> m[t] <= now)
  {
    set t | t in m && m[t] <= now
  }

  /** The wake table left after a timer interrupt at tick `now`. */
  function Pending(m: map<ThreadId, int>, now: int): (r: map<ThreadId, int>)
    ensures r.Keys == m.Keys - Expired(m, now)
    ensures forall t :: t in r ==> r[t] == m[t] && r[t] > now
  {
    map t | t in m && m[t] > now :: m[t]
  }

  /** A second interrupt at the same tick readies nothing and changes nothing. */
  lemma InterruptIdempotent(m: map<ThreadId, int>, now: int)
    ensures Expired(Pending(m, now), now) == {}
    ensures Pending(Pending(m, now), now) == Pending(m, now)
  {
  }

  /** An entry keeps its exact deadline through every interrupt whose tick lies
      before that deadline: later deadlines are never disturbed. */
  lemma {:induction false} FirstLateEnoughInterrupt(m: map<ThreadId, int>, t: ThreadId, ticks: seq<int>)
    requires t in m
    requires forall k :: 0 <= k < |ticks| ==> ticks[k] < m[t]
    ensures t in PendingAfter(m, ticks) && PendingAfter(m, ticks)[t] == m[t]
    decreases |ticks|
  {
    if ticks != [] {
      FirstLateEnoughInterrupt(Pending(m, ticks[0]), t, ticks[1..]);
    }
  }

  /** The wake table after interrupts at the given ticks, with no registration
      in between. */
  function PendingAfter(m: map<ThreadId, int>, ticks: seq<int>): (r: map<ThreadId, int>)
    ensures r.Keys <= m.Keys
    decreases |ticks|
  {
    if ticks == [] then m else PendingAfter(Pending(m, ticks[0]), ticks[1..])
  }

  /** Interrupts at `a` and then at `b` are interrupts at `a + b`. */
  lemma {:induction false} PendingAfterAppend(m: map<ThreadId, int>, a: seq<int>, b: seq<int>)
    ensures PendingAfter(m, a + b) == PendingAfter(PendingAfter(m, a), b)
    decreases |a|
  {
    if a == [] {
      assert a + b == b;
    } else {
      assert (a + b)[0] == a[0] && (a + b)[1..] == a[1..] + b;
      PendingAfterAppend(Pending(m, a[0]), a[1..], b);
    }
  }

  /** A thread that registered with waitUntil(x) at tick `now` is readied by an
      interrupt only once that interrupt's tick is at least now + x, however
      many interrupts came in between. */
  lemma NotWokenEarly(m: map<ThreadId, int>, t: ThreadId, now: int, x: int, ticks: seq<int>, tick: int)
    requires x > 0
    requires t in Expired(PendingAfter(Register(m, t, now, x), ticks), tick)
    ensures tick >= now + x
  {
    var r := Register(m, t, now, x);
    if k :| 0 <= k < |ticks| && ticks[k] >= now + x {
      var j := FirstLate(ticks, now + x, k);
      FirstLateEnoughInterrupt(r, t, ticks[..j]);
      var before := PendingAfter(r, ticks[..j]);
      assert t !in Pending(before, ticks[j]);
      assert ticks == ticks[..j] + ([ticks[j]] + ticks[j + 1..]);
      PendingAfterAppend(r, ticks[..j], [ticks[j]] + ticks[j + 1..]);
      assert false;
    } else {
      FirstLateEnoughInterrupt(r, t, ticks);
    }
  }

  /** The first position of `ticks` whose tick is at least `d`, given one at `k`. */
  lemma FirstLate(ticks: seq<int>, d: int, k: nat) returns (j: nat)
    requires k < |ticks| && ticks[k] >= d
    ensures j <= k && ticks[j] >= d
    ensures forall i :: 0 <= i < j ==> ticks[i] < d
  {
    j := 0;
    while ticks[j] < d
      invariant j <= k
      invariant forall i :: 0 <= i < j ==> ticks[i] < d
      decreases k - j
    {
      j := j + 1;
    }
  }

  /** Registering again replaces the earlier deadline of the same thread. */
  lemma ReRegisterReplaces(m: map<ThreadId, int>, t: ThreadId, now1: int, x1: int, now2: int, x2: int)
    requires x1 > 0 && x2 > 0
    ensures Register(Register(m, t, now1, x1), t, now2, x2) == Register(m, t, now2, x2)
  {
  }

  class Alarm {
    var threadMap: map<ThreadId, int>
    /** The threads made ready so far, in the order the interrupt handler
        readied them. */
    ghost var readied: seq<ThreadId>

    constructor ()
      ensures threadMap == map[] && readied == []
    {
      threadMap := map[];
      readied := [];
    }

    /** waitUntil(x) called by thread `current` at tick `now`. The suspension
        of the caller is not part of this model. */
    method WaitUntil(x: int, now: int, current: ThreadId)
      modifies this
      ensures threadMap == Register(old(threadMap), current, now, x)
      ensures readied == old(readied)
    {
      if x > 0 {
        var wakeTime := now + x;
        threadMap := threadMap[current := wakeTime];
      }
    }

    /** The timer interrupt at tick `now`. The handler walks the table in an
        unspecified order, readying and removing every expired entry. */
    method TimerInterrupt(now: int)
      modifies this
      ensures threadMap == Pending(old(threadMap), now)
      ensures |readied| >= |old(readied)| && readied[..|old(readied)|] == old(readied)
      ensures forall t :: t in readied[|old(readied)|..] <==> t in Expired(old(threadMap), now)
      ensures NoDuplicates(readied[|old(readied)|..])
    {
      ghost var before := threadMap;
      ghost var woken: seq<ThreadId> := [];
      var unvisited := threadMap.Keys;
      while unvisited != {}
        invariant unvisited <= before.Keys
        invariant forall t :: t in threadMap <==> t in before && (t in unvisited || before[t] > now)
        invariant forall t :: t in threadMap ==> threadMap[t] == before[t]
        invariant readied == old(readied) + woken
        invariant forall t :: t in woken <==> t in before && t !in unvisited && before[t] <= now
        invariant NoDuplicates(woken)
        decreases unvisited
      {
        var t :| t in unvisited;
        if threadMap[t] <= now {
          readied := readied + [t];
          woken := woken + [t];
          threadMap := threadMap - {t};
        }
        unvisited := unvisited - {t};
      }
      assert readied[|old(readied)|..] == woken;
    }
  }
}
