/** `remove_hash_entry` exactly as TimerAPI.c writes it, applied to a timer whatever list it is
    on, and what happens when `RTOSTmrStop` applies it to a COMPLETED timer, which the timer
    task has already unlinked. */
module Findings {
  import opened TimerTypes
  import opened Links
  import opened Arena
  import opened TimerAPI

  /** A link is NIL or a slot of an arena of `n` slots. */
  predicate LinkIn(p: int, n: nat)
  {
    p == NIL || 0 <= p < n
  }

  /** `remove_hash_entry` on slot `t` with match tick `matchTick`, trusting the slot's own links:
      with no predecessor the slot is taken to head its bucket, whose head becomes its successor;
      otherwise the neighbours are joined. The count of the bucket drops by one (modulo 2^8) in
      either case, and the slot's links are cleared. Results: table, `next`, `prev`. */
  function RemoveAsWritten(table: seq<HashObj>, next: seq<int>, prev: seq<int>, t: nat, matchTick: U32)
    : (r: (seq<HashObj>, seq<int>, seq<int>))
    requires |table| == HASH_TABLE_SIZE && t < |next| && |prev| == |next|
    requires LinkIn(next[t], |next|) && LinkIn(prev[t], |next|)
    ensures |r.0| == HASH_TABLE_SIZE && |r.1| == |next| && |r.2| == |prev|
    ensures r.1[t] == NIL && r.2[t] == NIL
    ensures var b := matchTick % HASH_TABLE_SIZE;
      r.0 == table[b := r.0[b]] && r.0[b].timerCount == Wrap8(table[b].timerCount - 1)
    ensures var b := matchTick % HASH_TABLE_SIZE;
      r.0[b].listPtr == if prev[t] == NIL then next[t] else table[b].listPtr
  {
    var b := matchTick % HASH_TABLE_SIZE;
    var count := Wrap8(table[b].timerCount - 1);
    if prev[t] == NIL then
      var head := next[t];
      var prev' := if head != NIL then prev[head := NIL] else prev;
      (table[b := HashObj(count, head)], next[t := NIL], prev'[t := NIL])
    else
      var next' := next[prev[t] := next[t]];
      var prev' := if next[t] != NIL then prev[next[t] := prev[t]] else prev;
      (table[b := HashObj(count, table[b].listPtr)], next'[t := NIL], prev'[t := NIL])
  }

  /** Applied to a slot that is on no list (so its links are NIL, as for a timer the timer task
      has fired and marked COMPLETED), the as-written removal empties the head of the bucket of
      the slot's match tick and uncounts a timer that was never counted there. When that bucket
      still holds timers, its entry no longer heads or counts them, and the link structure is no
      longer sound. */
  lemma RemoveDetachedLosesBucket(freeHead: int, freeCount: U8, freeList: seq<nat>,
                                  table: seq<HashObj>, buckets: seq<seq<nat>>, home: seq<Home>,
                                  next: seq<int>, prev: seq<int>, t: nat, matchTick: U32)
    requires Linked(freeHead, freeCount, freeList, table, buckets, home, next, prev)
    requires t < |home| && home[t] == Detached
    requires buckets[matchTick % HASH_TABLE_SIZE] != []
    ensures var b := matchTick % HASH_TABLE_SIZE; var r := RemoveAsWritten(table, next, prev, t, matchTick);
      && r.0[b].listPtr == NIL
      && r.0[b].timerCount == Wrap8(|buckets[b]| - 1)
      && !BucketOk(r.0[b], buckets[b], b, home, r.1, r.2)
      && !Linked(freeHead, freeCount, freeList, r.0, buckets, home, r.1, r.2)
  {
    var b := matchTick % HASH_TABLE_SIZE;
    BucketView(freeHead, freeCount, freeList, table, buckets, home, next, prev, b);
    assert BucketOk(table[b], buckets[b], b, home, next, prev);
    Wrap8Step(table[b].timerCount, |buckets[b]|);
  }

  /** The same on the engine itself: stopping a COMPLETED timer `x` with the removal as written,
      while the bucket of its match tick still holds timers, leaves that bucket's entry with no
      head although every timer left in the bucket is RUNNING with a match tick that hashes there;
      the timer task walks an empty list at their match ticks and none of them ever fires. */
  lemma StopCompletedLosesBucket(m: TimerManager, x: nat)
    requires m.Valid() && x < m.capacity && m.slots[x].state == Completed
    requires m.buckets[m.slots[x].matchTick % HASH_TABLE_SIZE] != []
    ensures m.next[x] == NIL && m.prev[x] == NIL
    ensures var b := m.slots[x].matchTick % HASH_TABLE_SIZE;
      var r := RemoveAsWritten(m.hashTable[..], m.next[..], m.prev[..], x, m.slots[x].matchTick);
      && r.0[b].listPtr == NIL
      && (forall k :: 0 <= k < |m.buckets[b]| ==>
            m.buckets[b][k] < m.capacity && m.slots[m.buckets[b][k]].state == Running
            && m.slots[m.buckets[b][k]].matchTick % HASH_TABLE_SIZE == b)
      && !Linked(m.freeTmrListPtr, m.freeTmrCount, m.freeList, r.0, m.buckets, m.home, r.1, r.2)
  {
    var b := m.slots[x].matchTick % HASH_TABLE_SIZE;
    assert Agrees(m.slots[..][x], m.home[x]);
    var fh, fc, fl, tab, bk, home, next, prev :=
      m.freeTmrListPtr, m.freeTmrCount, m.freeList, m.hashTable[..], m.buckets, m.home, m.next[..], m.prev[..];
    BucketView(fh, fc, fl, tab, bk, home, next, prev, b);
    forall k | 0 <= k < |bk[b]|
      ensures m.slots[bk[b][k]].state == Running && m.slots[bk[b][k]].matchTick % HASH_TABLE_SIZE == b
    {
      assert Agrees(m.slots[..][bk[b][k]], home[bk[b][k]]);
    }
    RemoveDetachedLosesBucket(fh, fc, fl, tab, bk, home, next, prev, x, m.slots[x].matchTick);
  }

  /** The run that shows it, in a pool of two timers: A (slot 0) is a one-shot timer with delay 5
      and B (slot 1) a one-shot timer with delay 15, both started at tick 0, so both hash to
      bucket 5. At tick 5 the timer task fires A, unlinks it and marks it COMPLETED; bucket 5 then
      holds B alone. `RTOSTmrStop` on A passes every check (A is not STOPPED) and calls
      `remove_hash_entry` on it: bucket 5 ends up with count 0 and no head while B is still
      RUNNING with match tick 15, so at tick 15 the timer task finds nothing to fire. */
  lemma StopCompletedExample()
    ensures var a := Tmr(RTOS_TMR_TYPE, 1, 0, 5, 5, 0, 0, RTOS_TMR_ONE_SHOT, Completed);
      var b := Tmr(RTOS_TMR_TYPE, 1, 0, 15, 15, 0, 0, RTOS_TMR_ONE_SHOT, Running);
      var table := seq(HASH_TABLE_SIZE, i => if i == 5 then HashObj(1, 1) else HashObj(0, NIL));
      var buckets := seq(HASH_TABLE_SIZE, i => if i == 5 then [1] else []);
      var home := [Detached, InBucket(5)];
      var next, prev := [NIL, NIL], [NIL, NIL];
      var r := RemoveAsWritten(table, next, prev, 0, a.matchTick);
      && Linked(NIL, 0, [], table, buckets, home, next, prev)
      && AllAgree([a, b], home)
      && r.0[5] == HashObj(0, NIL)
      && b.state == Running && b.matchTick % HASH_TABLE_SIZE == 5
      && !Linked(NIL, 0, [], r.0, buckets, home, r.1, r.2)
  {
    var a := Tmr(RTOS_TMR_TYPE, 1, 0, 5, 5, 0, 0, RTOS_TMR_ONE_SHOT, Completed);
    var b := Tmr(RTOS_TMR_TYPE, 1, 0, 15, 15, 0, 0, RTOS_TMR_ONE_SHOT, Running);
    var table := seq(HASH_TABLE_SIZE, i => if i == 5 then HashObj(1, 1) else HashObj(0, NIL));
    var buckets: seq<seq<nat>> := seq(HASH_TABLE_SIZE, i => if i == 5 then [1] else []);
    var home := [Detached, InBucket(5)];
    var next, prev := [NIL, NIL], [NIL, NIL];
    forall i | 0 <= i < HASH_TABLE_SIZE ensures BucketOk(table[i], buckets[i], i, home, next, prev) {
      if i == 5 {
        assert buckets[i] == [1];
      } else {
        assert buckets[i] == [];
      }
    }
    forall i | 0 <= i < |home| ensures Listed(i, home[i], [], buckets) {
      if i == 1 { assert buckets[5] == [1]; }
    }
    assert Linked(NIL, 0, [], table, buckets, home, next, prev);
    assert Agrees(a, home[0]) && Agrees(b, home[1]);
    RemoveDetachedLosesBucket(NIL, 0, [], table, buckets, home, next, prev, 0, 5);
  }
}
