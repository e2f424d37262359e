/** What one tick of the timer task does to the timers it finds in the bucket it scans,
    stated as a fold over that bucket's list in traversal order. */
module TickSpec {
  import opened TimerTypes
  import opened Links

  /** The part of the engine a tick changes: the timers, the bucket lists and the log of callbacks. */
  datatype Wheel = Wheel(timers: seq<Tmr>, buckets: seq<seq<nat>>, fired: seq<Event>)

  /** A due timer after it fired at `tick`: a periodic timer is re-armed `period` ticks later
      (modulo 2^32), any other timer is COMPLETED. */
  function Fire(t: Tmr, tick: U32): (r: Tmr)
    ensures r == t.(matchTick := r.matchTick, state := r.state)
    ensures t.opt == RTOS_TMR_PERIODIC ==> r.state == t.state && Wrap32(r.matchTick - tick) == t.period
    ensures t.opt != RTOS_TMR_PERIODIC ==> r.state == Completed && r.matchTick == t.matchTick
  {
    if t.opt == RTOS_TMR_PERIODIC then t.(matchTick := Wrap32(tick + t.period))
    else t.(state := Completed)
  }

  /** The callback event of timer `x` firing at `tick`. */
  function FiredEvent(t: Tmr, x: nat, tick: U32): Event
  {
    Event(tick, x, t.callback, t.callbackArg)
  }

  /** One visited entry: left alone unless its match tick is `tick`; otherwise its callback is
      logged, it is unlinked from its bucket and, when periodic, pushed on the head of the
      bucket of its new match tick. */
  function FireOne(w: Wheel, x: nat, tick: U32): (r: Wheel)
    requires x < |w.timers| && |w.buckets| == HASH_TABLE_SIZE
    ensures |r.timers| == |w.timers| && |r.buckets| == HASH_TABLE_SIZE
    ensures w.timers[x].matchTick != tick ==> r == w
    ensures w.timers[x].matchTick == tick ==>
      && r.timers[x] == Fire(w.timers[x], tick)
      && (forall y :: 0 <= y < |w.timers| && y != x ==> r.timers[y] == w.timers[y])
      && r.fired == w.fired + [FiredEvent(w.timers[x], x, tick)]
  {
    var t := w.timers[x];
    if t.matchTick != tick then w
    else
      var b := t.matchTick % HASH_TABLE_SIZE;
      var unlinked := w.buckets[b := Without(w.buckets[b], x)];
      var t' := Fire(t, tick);
      var relinked :=
        if t.opt == RTOS_TMR_PERIODIC then
          var b' := t'.matchTick % HASH_TABLE_SIZE;
          unlinked[b' := [x] + unlinked[b']]
        else unlinked;
      Wheel(w.timers[x := t'], relinked, w.fired + [FiredEvent(t, x, tick)])
  }

  /** `FireOne` on a due entry, given its bucket list with the entry already taken out. */
  lemma FireOneDue(w: Wheel, x: nat, tick: U32, unlinked: seq<seq<nat>>)
    requires x < |w.timers| && |w.buckets| == HASH_TABLE_SIZE && w.timers[x].matchTick == tick
    requires unlinked == w.buckets[tick % HASH_TABLE_SIZE := Without(w.buckets[tick % HASH_TABLE_SIZE], x)]
    ensures var t := w.timers[x]; var t' := Fire(t, tick); var b' := t'.matchTick % HASH_TABLE_SIZE;
      FireOne(w, x, tick)
        == Wheel(w.timers[x := t'],
                 if t.opt == RTOS_TMR_PERIODIC then unlinked[b' := [x] + unlinked[b']] else unlinked,
                 w.fired + [FiredEvent(t, x, tick)])
  {
  }

  /** The entries `xs` visited in order. */
  function Scan(w: Wheel, xs: seq<nat>, tick: U32): (r: Wheel)
    requires |w.buckets| == HASH_TABLE_SIZE && Indexes(xs, |w.timers|)
    ensures |r.timers| == |w.timers| && |r.buckets| == HASH_TABLE_SIZE
    ensures w.fired <= r.fired && |r.fired| <= |w.fired| + |xs|
    decreases |xs|
  {
    if xs == [] then w
    else FireOne(Scan(w, xs[..|xs| - 1], tick), xs[|xs| - 1], tick)
  }

  /** The callbacks due among `xs` at `tick`, in visiting order. */
  function DueEvents(timers: seq<Tmr>, xs: seq<nat>, tick: U32): (r: seq<Event>)
    requires Indexes(xs, |timers|)
    ensures |r| <= |xs|
    ensures forall i :: 0 <= i < |r| ==>
      r[i].tick == tick && r[i].timer in xs && timers[r[i].timer].matchTick == tick
      && r[i] == FiredEvent(timers[r[i].timer], r[i].timer, tick)
    decreases |xs|
  {
    if xs == [] then []
    else
      var x := xs[|xs| - 1];
      DueEvents(timers, xs[..|xs| - 1], tick)
        + (if timers[x].matchTick == tick then [FiredEvent(timers[x], x, tick)] else [])
  }

  lemma PrefixFacts(xs: seq<nat>, n: nat)
    requires xs != [] && Indexes(xs, n) && NoDup(xs)
    ensures Indexes(xs[..|xs| - 1], n) && NoDup(xs[..|xs| - 1])
    ensures xs[|xs| - 1] !in xs[..|xs| - 1]
    ensures forall y :: y in xs ==> y in xs[..|xs| - 1] || y == xs[|xs| - 1]
  {
    var last := |xs| - 1;
    forall y | y in xs ensures y in xs[..last] || y == xs[last] {
      var i :| 0 <= i < |xs| && xs[i] == y;
      if i < last { assert xs[..last][i] == y; }
    }
  }

  /** A timer the scan does not visit, or visits while it is not due, keeps all of its fields. */
  lemma {:induction false} ScanKeeps(w: Wheel, xs: seq<nat>, tick: U32, y: nat)
    requires |w.buckets| == HASH_TABLE_SIZE && Indexes(xs, |w.timers|) && NoDup(xs)
    requires y < |w.timers| && (y !in xs || w.timers[y].matchTick != tick)
    ensures Scan(w, xs, tick).timers[y] == w.timers[y]
    decreases |xs|
  {
    if xs != [] {
      var pre, x := xs[..|xs| - 1], xs[|xs| - 1];
      PrefixFacts(xs, |w.timers|);
      ScanKeeps(w, pre, tick, y);
      if x == y {
        assert y !in pre;
      }
    }
  }

  /** A timer the scan does not fire stays in exactly the buckets it was in: entries that are
      not due are neither moved nor unlinked. */
  lemma {:induction false} ScanKeepsLinked(w: Wheel, xs: seq<nat>, tick: U32, y: nat, c: nat)
    requires |w.buckets| == HASH_TABLE_SIZE && Indexes(xs, |w.timers|) && NoDup(xs)
    requires y < |w.timers| && (y !in xs || w.timers[y].matchTick != tick) && c < HASH_TABLE_SIZE
    ensures y in Scan(w, xs, tick).buckets[c] <==> y in w.buckets[c]
    decreases |xs|
  {
    if xs != [] {
      var pre, x := xs[..|xs| - 1], xs[|xs| - 1];
      PrefixFacts(xs, |w.timers|);
      ScanKeepsLinked(w, pre, tick, y, c);
      ScanKeeps(w, pre, tick, x);
      var v := Scan(w, pre, tick);
      if x != y && v.timers[x].matchTick == tick {
        WithoutOthers(v.buckets[v.timers[x].matchTick % HASH_TABLE_SIZE], x, y);
      }
    }
  }

  /** Every visited timer that is due fires exactly once: it ends as `Fire` makes it. */
  lemma {:induction false} ScanFires(w: Wheel, xs: seq<nat>, tick: U32, i: nat)
    requires |w.buckets| == HASH_TABLE_SIZE && Indexes(xs, |w.timers|) && NoDup(xs)
    requires i < |xs| && w.timers[xs[i]].matchTick == tick
    ensures Scan(w, xs, tick).timers[xs[i]] == Fire(w.timers[xs[i]], tick)
    decreases |xs|
  {
    var pre, x := xs[..|xs| - 1], xs[|xs| - 1];
    PrefixFacts(xs, |w.timers|);
    if i == |xs| - 1 {
      ScanKeeps(w, pre, tick, x);
    } else {
      assert pre[i] == xs[i];
      ScanFires(w, pre, tick, i);
      assert x != xs[i];
    }
  }

  /** The scan logs exactly the callbacks of the due entries, in the order it visits them. */
  lemma {:induction false} ScanLog(w: Wheel, xs: seq<nat>, tick: U32)
    requires |w.buckets| == HASH_TABLE_SIZE && Indexes(xs, |w.timers|) && NoDup(xs)
    ensures Scan(w, xs, tick).fired == w.fired + DueEvents(w.timers, xs, tick)
    decreases |xs|
  {
    if xs != [] {
      var pre, x := xs[..|xs| - 1], xs[|xs| - 1];
      PrefixFacts(xs, |w.timers|);
      ScanLog(w, pre, tick);
      ScanKeeps(w, pre, tick, x);
    }
  }

  /** The scan's effect on one timer: a visited timer that is due ends as `Fire` makes it, every
      other timer is left as it was. */
  lemma ScanTimer(w: Wheel, xs: seq<nat>, tick: U32, y: nat)
    requires |w.buckets| == HASH_TABLE_SIZE && Indexes(xs, |w.timers|) && NoDup(xs) && y < |w.timers|
    ensures Scan(w, xs, tick).timers[y] ==
              if y in xs && w.timers[y].matchTick == tick then Fire(w.timers[y], tick) else w.timers[y]
  {
    if y in xs && w.timers[y].matchTick == tick {
      var i :| 0 <= i < |xs| && xs[i] == y;
      ScanFires(w, xs, tick, i);
    } else {
      ScanKeeps(w, xs, tick, y);
    }
  }

  /** Visiting one more entry of `xs` is one more `FireOne`. */
  lemma ScanStep(w: Wheel, xs: seq<nat>, k: nat, tick: U32)
    requires |w.buckets| == HASH_TABLE_SIZE && Indexes(xs, |w.timers|) && k < |xs|
    ensures Indexes(xs[..k], |w.timers|) && Indexes(xs[..k + 1], |w.timers|)
    ensures Scan(w, xs[..k + 1], tick) == FireOne(Scan(w, xs[..k], tick), xs[k], tick)
  {
    assert xs[..k + 1][..k] == xs[..k];
  }

  /** What firing the entry that stands right after `pre` in the bucket being scanned does to that
      bucket: the entry leaves it, and a periodic timer whose new match tick falls in the same
      bucket comes back at its head. */
  lemma FireOneBucket(w: Wheel, x: nat, tick: U32, pre: seq<nat>, rest: seq<nat>)
    requires x < |w.timers| && |w.buckets| == HASH_TABLE_SIZE
    requires w.timers[x].matchTick == tick && x !in pre
    requires w.buckets[tick % HASH_TABLE_SIZE] == pre + [x] + rest
    ensures var t, b := w.timers[x], tick % HASH_TABLE_SIZE;
      FireOne(w, x, tick).buckets[b] ==
        if t.opt == RTOS_TMR_PERIODIC && Fire(t, tick).matchTick % HASH_TABLE_SIZE == b
        then [x] + pre + rest else pre + rest
  {
    var b := tick % HASH_TABLE_SIZE;
    WithoutAppend(pre, [x] + rest, x);
    assert Without([x] + rest, x) == rest;
    assert pre + [x] + rest == pre + ([x] + rest);
  }
}
