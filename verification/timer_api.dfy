/** The timer engine of TimerAPI.c: a fixed pool of timer objects on a free list, a hash
    table of doubly-linked bucket lists keyed by match tick, the public timer API and one
    step of the timer task. The C globals are the fields of one `TimerManager` object. */
module TimerAPI {
  import opened TimerTypes
  import opened Links
  import opened TickSpec
  import opened Arena

  /** The list a timer in a given state belongs on: UNUSED timers on the free list,
      RUNNING timers in the bucket of their match tick, STOPPED and COMPLETED ones nowhere. */
  function ExpectedHome(t: Tmr): (h: Home)
    ensures h == Detached <==> t.state == Stopped || t.state == Completed
    ensures h == InFreeList <==> t.state == Unused
    ensures h.InBucket? <==> t.state == Running
    ensures h.InBucket? ==> h.b < HASH_TABLE_SIZE && h.b == t.matchTick % HASH_TABLE_SIZE
  {
    match t.state
    case Unused => InFreeList
    case Running => InBucket(t.matchTick % HASH_TABLE_SIZE)
    case Stopped => Detached
    case Completed => Detached
  }

  /** A timer agrees with the list it is on; a timer in use passed the creation checks and an
      unused one is cleared. */
  ghost predicate Agrees(t: Tmr, h: Home)
  {
    && h == ExpectedHome(t)
    && (t.state != Unused ==> WellFormed(t))
    && (t.state == Unused ==> t == Cleared(t))
  }

  /** Every slot agrees with its home. */
  ghost predicate AllAgree(timers: seq<Tmr>, home: seq<Home>)
  {
    |timers| == |home| && forall i :: 0 <= i < |timers| ==> Agrees(timers[i], home[i])
  }

  /** Updating one slot and its home together keeps every slot in agreement. */
  lemma AllAgreeUpdate(timers: seq<Tmr>, home: seq<Home>, x: nat, t: Tmr, h: Home)
    requires AllAgree(timers, home) && x < |timers| && Agrees(t, h)
    ensures AllAgree(timers[x := t], home[x := h])
  {
  }

  /** The timers in the bucket of tick `tick` that match it are exactly the RUNNING timers
      whose match tick is `tick`: no due timer is missed and no stopped one is fired. */
  lemma DueInBucket(freeHead: int, freeCount: U8, freeList: seq<nat>, table: seq<HashObj>,
                    buckets: seq<seq<nat>>, home: seq<Home>, next: seq<int>, prev: seq<int>,
                    timers: seq<Tmr>, tick: U32, y: nat)
    requires Linked(freeHead, freeCount, freeList, table, buckets, home, next, prev)
    requires AllAgree(timers, home) && y < |timers|
    ensures (y in buckets[tick % HASH_TABLE_SIZE] && timers[y].matchTick == tick)
            <==> (timers[y].state == Running && timers[y].matchTick == tick)
  {
    var b := tick % HASH_TABLE_SIZE;
    assert Agrees(timers[y], home[y]);
    ListedAt(freeHead, freeCount, freeList, table, buckets, home, next, prev, y);
    if y in buckets[b] {
      BucketView(freeHead, freeCount, freeList, table, buckets, home, next, prev, b);
      var k :| 0 <= k < |buckets[b]| && buckets[b][k] == y;
      assert home[y] == InBucket(b);
    }
  }

  /** One tick's scan, seen timer by timer: exactly the RUNNING timers due at `tick` fire, their
      callbacks are logged in visiting order, and every other timer keeps its fields and its
      place in the buckets. */
  lemma TickOutcome(freeHead: int, freeCount: U8, freeList: seq<nat>, table: seq<HashObj>,
                    buckets: seq<seq<nat>>, home: seq<Home>, next: seq<int>, prev: seq<int>,
                    w: Wheel, tick: U32)
    requires Linked(freeHead, freeCount, freeList, table, buckets, home, next, prev)
    requires AllAgree(w.timers, home) && w.buckets == buckets
    ensures var xs := buckets[tick % HASH_TABLE_SIZE];
      && NoDup(xs) && Indexes(xs, |w.timers|)
      && (forall y :: 0 <= y < |w.timers| ==>
            Scan(w, xs, tick).timers[y] ==
              if w.timers[y].state == Running && w.timers[y].matchTick == tick
              then Fire(w.timers[y], tick) else w.timers[y])
      && Scan(w, xs, tick).fired == w.fired + DueEvents(w.timers, xs, tick)
      && (forall y, c :: (0 <= y < |w.timers| && 0 <= c < HASH_TABLE_SIZE
                         && !(w.timers[y].state == Running && w.timers[y].matchTick == tick)) ==>
            (y in Scan(w, xs, tick).buckets[c] <==> y in buckets[c]))
  {
    var xs := buckets[tick % HASH_TABLE_SIZE];
    BucketView(freeHead, freeCount, freeList, table, buckets, home, next, prev, tick % HASH_TABLE_SIZE);
    forall y | 0 <= y < |w.timers|
      ensures Scan(w, xs, tick).timers[y] ==
                if w.timers[y].state == Running && w.timers[y].matchTick == tick
                then Fire(w.timers[y], tick) else w.timers[y]
    {
      ScanTimer(w, xs, tick, y);
      DueInBucket(freeHead, freeCount, freeList, table, buckets, home, next, prev, w.timers, tick, y);
    }
    forall y, c | 0 <= y < |w.timers| && 0 <= c < HASH_TABLE_SIZE
                  && !(w.timers[y].state == Running && w.timers[y].matchTick == tick)
      ensures y in Scan(w, xs, tick).buckets[c] <==> y in buckets[c]
    {
      DueInBucket(freeHead, freeCount, freeList, table, buckets, home, next, prev, w.timers, tick, y);
      ScanKeepsLinked(w, xs, tick, y, c);
    }
    ScanLog(w, xs, tick);
  }

  /** What the API can observe of the engine, and what its error paths leave untouched. */
  datatype Engine = Engine(timers: seq<Tmr>, freeList: seq<nat>, buckets: seq<seq<nat>>,
                           fired: seq<Event>, freeCount: U8, tick: U32)

  /** The callback `RTOSTmrStop` runs for option `opt`: none, the timer's callback with its own
      argument, or the timer's callback with the argument given to the call. */
  function StopEvents(t: Tmr, x: nat, opt: U8, arg: Ptr, tick: U32): (r: seq<Event>)
    ensures |r| <= 1
    ensures r != [] <==> opt == RTOS_TMR_OPT_CALLBACK || opt == RTOS_TMR_OPT_CALLBACK_ARG
    ensures r != [] ==> r[0].tick == tick && r[0].timer == x && r[0].callback == t.callback
    ensures r != [] ==> r[0].arg == if opt == RTOS_TMR_OPT_CALLBACK then t.callbackArg else arg
  {
    if opt == RTOS_TMR_OPT_CALLBACK then [Event(tick, x, t.callback, t.callbackArg)]
    else if opt == RTOS_TMR_OPT_CALLBACK_ARG then [Event(tick, x, t.callback, arg)]
    else []
  }

  /** The options `RTOSTmrCreate` accepts. */
  predicate CreateArgsOk(delay: U32, period: U32, option: U8)
    ensures CreateArgsOk(delay, period, option) <==>
      WellFormed(Tmr(RTOS_TMR_TYPE, NULL, NULL, 0, delay, period, NULL, option, Stopped))
  {
    || (option == RTOS_TMR_ONE_SHOT && delay > 0)
    || (option == RTOS_TMR_PERIODIC && period > 0)
  }

  class TimerManager {
    /** The arena of timer objects; a handle is an index into it. */
    const capacity: nat
    const slots: array<Tmr>
    const next: array<int>
    const prev: array<int>

    /** `hash_table`, `FreeTmrCount`, `FreeTmrListPtr` and `RTOSTmrTickCtr`. */
    const hashTable: array<HashObj>
    var freeTmrCount: U8
    var freeTmrListPtr: int
    var tickCtr: U32

    /** The free list and the bucket lists as sequences of slots, in link order. */
    ghost var freeList: seq<nat>
    ghost var buckets: seq<seq<nat>>
    /** The list each slot is linked into. */
    ghost var home: seq<Home>
    /** Every callback invocation so far, in order. */
    ghost var fired: seq<Event>

    /** The links: the free list and the ten buckets are sound, counted and disjoint, and each
        slot is on the list `home` names. */
    ghost predicate Shape()
      reads this`freeTmrListPtr, this`freeTmrCount, this`freeList, this`buckets, this`home
      reads next, prev, hashTable
    {
      && slots.Length == capacity && next.Length == capacity && prev.Length == capacity
      && next != prev && hashTable.Length == HASH_TABLE_SIZE
      && Linked(freeTmrListPtr, freeTmrCount, freeList, hashTable[..], buckets, home, next[..], prev[..])
    }

    /** The engine invariant: the links are sound and every timer agrees with the list it is on. */
    ghost predicate Valid()
      reads this`freeTmrListPtr, this`freeTmrCount, this`freeList, this`buckets, this`home
      reads slots, next, prev, hashTable
    {
      && Shape()
      && AllAgree(slots[..], home)
    }

    ghost function Model(): Engine
      reads this, slots
    {
      Engine(slots[..], freeList, buckets, fired, freeTmrCount, tickCtr)
    }

    /** A handle the API accepts: not NULL, tagged as a timer, not UNUSED. */
    ghost predicate Active(ptmr: int)
      reads slots
      requires ptmr == NIL || 0 <= ptmr < slots.Length
    {
      ptmr != NIL && slots[ptmr].tmrType == RTOS_TMR_TYPE && slots[ptmr].state != Unused
    }

    /** `RTOSTmrInit` without its console I/O, semaphore, mutexes and thread: builds the pool
        and clears the hash table. Pool objects start zero-filled. */
    constructor RTOSTmrInit(timerCount: U32)
      ensures Valid()
      ensures fresh(slots) && fresh(next) && fresh(prev) && fresh(hashTable)
      ensures capacity == timerCount && tickCtr == 0 && fired == []
      ensures freeTmrCount == Wrap8(timerCount)
      ensures |freeList| == capacity && forall k :: 0 <= k < |freeList| ==> freeList[k] == k
      ensures forall b :: 0 <= b < HASH_TABLE_SIZE ==> buckets[b] == []
      ensures forall i :: 0 <= i < capacity ==> slots[i] == BlankTmr
    {
      capacity := timerCount;
      slots := new Tmr[timerCount](_ => BlankTmr);
      next := new int[timerCount](_ => NIL);
      prev := new int[timerCount](_ => NIL);
      hashTable := new HashObj[HASH_TABLE_SIZE](_ => HashObj(0, NIL));
      freeTmrCount, freeTmrListPtr, tickCtr := 0, NIL, 0;
      freeList, buckets, fired := [], [], [];
      home := seq(timerCount, _ => InFreeList);
      new;
      CreateTimerPool(timerCount);
      InitHashTable();
      assert hashTable[..] == seq(HASH_TABLE_SIZE, _ => HashObj(0, NIL));
      InitialLinked(freeTmrListPtr, freeTmrCount, freeList, hashTable[..], buckets, home, next[..], prev[..], timerCount);
      assert forall i :: 0 <= i < capacity ==> slots[..][i] == BlankTmr && home[i] == InFreeList;
    }

    /** `Create_Timer_Pool`: links `timerCount` objects into the free list in index order and
        sets the 8-bit free count to `timerCount` truncated to 8 bits. */
    method CreateTimerPool(timerCount: U32)
      requires timerCount == capacity == next.Length == prev.Length && next != prev
      requires freeTmrListPtr == NIL && freeList == []
      modifies this`freeTmrCount, this`freeTmrListPtr, this`freeList, next, prev
      ensures freeTmrCount == Wrap8(timerCount)
      ensures |freeList| == timerCount && forall k :: 0 <= k < |freeList| ==> freeList[k] == k
      ensures IsList(freeTmrListPtr, freeList, next[..], prev[..])
    {
      freeTmrCount := Wrap8(timerCount);
      var current: int := NIL;
      for i := 0 to timerCount
        invariant |freeList| == i && forall k :: 0 <= k < i ==> freeList[k] == k
        invariant IsList(freeTmrListPtr, freeList, next[..], prev[..])
        invariant current == if i == 0 then NIL else i - 1
        invariant freeTmrCount == Wrap8(timerCount)
      {
        ghost var n0, p0 := next[..], prev[..];
        if freeTmrListPtr == NIL {
          freeTmrListPtr := i;
          current := i;
          next[current] := NIL;
          prev[current] := NIL;
        } else {
          next[current] := i;
          prev[i] := current;
          next[i] := NIL;
          current := i;
        }
        PushTail(if freeList == [] then NIL else freeList[0], freeList, i, n0, p0, next[..], prev[..]);
        freeList := freeList + [i];
      }
    }

    /** `init_hash_table`: every bucket empty with a zero count. */
    method InitHashTable()
      requires hashTable.Length == HASH_TABLE_SIZE
      modifies this`buckets, hashTable
      ensures forall b :: 0 <= b < HASH_TABLE_SIZE ==> hashTable[b] == HashObj(0, NIL)
      ensures buckets == seq(HASH_TABLE_SIZE, _ => [])
    {
      for i := 0 to HASH_TABLE_SIZE
        invariant forall b :: 0 <= b < i ==> hashTable[b] == HashObj(0, NIL)
      {
        hashTable[i] := HashObj(0, NIL);
      }
      buckets := seq(HASH_TABLE_SIZE, _ => []);
    }

    /** `alloc_timer_obj`: pops the head of the free list and detaches it. Fails, changing
        nothing, when the 8-bit free count is zero or the list is empty. */
    method AllocTimerObj() returns (t: int)
      requires Shape()
      modifies this`freeTmrCount, this`freeTmrListPtr, this`freeList, this`home, next, prev
      ensures Shape()
      ensures t == NIL <==> old(freeTmrCount) == 0 || old(freeList) == []
      ensures t == NIL ==> freeList == old(freeList) && home == old(home) && freeTmrCount == old(freeTmrCount)
      ensures t != NIL ==> t == old(freeList)[0] && freeList == old(freeList)[1..]
      ensures t != NIL ==> freeTmrCount == old(freeTmrCount) - 1 && home == old(home)[t := Detached]
      ensures t != NIL ==> next[t] == NIL && prev[t] == NIL
    {
      if freeTmrCount <= 0 || freeTmrListPtr == NIL {
        return NIL;
      }
      ghost var fh, fc, fl, h0, n0, p0 := freeTmrListPtr, freeTmrCount, freeList, home, next[..], prev[..];
      FreeHead(fh, fc, fl, hashTable[..], buckets, h0, n0, p0);
      t := freeTmrListPtr;
      freeTmrListPtr := next[t];
      if freeTmrListPtr != NIL {
        prev[freeTmrListPtr] := NIL;
      }
      prev[t] := NIL;
      next[t] := NIL;
      freeTmrCount := freeTmrCount - 1;
      freeList := fl[1..];
      home := home[t := Detached];
      assert next[..] == n0[t := NIL];
      assert prev[..] == (if n0[t] == NIL then p0 else p0[n0[t] := NIL])[t := NIL];
      PopFree(fh, fc, fl, hashTable[..], buckets, h0, n0, p0, next[..], prev[..]);
    }

    /** `free_timer_obj`: clears the timer, marks it UNUSED and pushes it on the head of the
        free list; the 8-bit free count goes up by one. */
    method FreeTimerObj(t: nat)
      requires Shape() && t < capacity && home[t] == Detached
      modifies this`freeTmrCount, this`freeTmrListPtr, this`freeList, this`home, next, prev, slots
      ensures Shape()
      ensures slots[..] == old(slots[..])[t := Cleared(old(slots[t]))]
      ensures freeList == [t] + old(freeList) && home == old(home)[t := InFreeList]
      ensures freeTmrCount == Wrap8(old(freeTmrCount) + 1)
    {
      ghost var fh, fc, fl, h0, n0, p0 := freeTmrListPtr, freeTmrCount, freeList, home, next[..], prev[..];
      slots[t] := slots[t].(callback := NULL, callbackArg := NULL, delay := 0, period := 0,
                            name := NULL, opt := 0, matchTick := 0);
      slots[t] := slots[t].(state := Unused);
      next[t] := freeTmrListPtr;
      prev[t] := NIL;
      if freeTmrListPtr != NIL {
        prev[freeTmrListPtr] := t;
      }
      freeTmrListPtr := t;
      freeTmrCount := Wrap8(freeTmrCount + 1);
      freeList := [t] + fl;
      home := home[t := InFreeList];
      assert next[..] == n0[t := fh];
      assert prev[..] == if fh == NIL then p0[t := NIL] else p0[t := NIL][fh := t];
      PushFree(fh, fc, fl, hashTable[..], buckets, h0, n0, p0, t, next[..], prev[..]);
    }

    /** `insert_hash_entry`: pushes a detached timer on the head of the bucket of its match
        tick and counts it there. Every other list is left as it was. */
    method InsertHashEntry(t: nat)
      requires Shape() && t < capacity && home[t] == Detached
      modifies this`buckets, this`home, next, prev, hashTable
      ensures Shape()
      ensures var b := slots[t].matchTick % HASH_TABLE_SIZE;
        && buckets == old(buckets)[b := [t] + old(buckets[b])]
        && home == old(home)[t := InBucket(b)]
        && hashTable[b] == HashObj(Wrap8(old(hashTable[b].timerCount) + 1), t)
    {
      var index := slots[t].matchTick % HASH_TABLE_SIZE;
      ghost var tab, bk, h0, n0, p0 := hashTable[..], buckets, home, next[..], prev[..];
      hashTable[index] := hashTable[index].(timerCount := Wrap8(hashTable[index].timerCount + 1));
      if hashTable[index].listPtr == NIL {
        hashTable[index] := hashTable[index].(listPtr := t);
        next[t] := NIL;
        prev[t] := NIL;
      } else {
        assert BucketOk(tab[index], bk[index], index, h0, n0, p0);
        LinksAt(tab[index].listPtr, bk[index], n0, p0, 0);
        next[t] := hashTable[index].listPtr;
        prev[hashTable[index].listPtr] := t;
        hashTable[index] := hashTable[index].(listPtr := t);
        prev[t] := NIL;
      }
      buckets := buckets[index := [t] + bk[index]];
      home := home[t := InBucket(index)];
      ghost var h := tab[index].listPtr;
      assert next[..] == n0[t := h];
      assert prev[..] == (if h == NIL then p0 else p0[h := t])[t := NIL];
      assert hashTable[..] == tab[index := HashObj(Wrap8(tab[index].timerCount + 1), t)];
      PushBucket(freeTmrListPtr, freeTmrCount, freeList, tab, bk, h0, n0, p0, t, index, next[..], prev[..]);
    }

    /** `remove_hash_entry`: unlinks a timer from the bucket of its match tick through its own
        links, fixing the bucket head when it was first, and uncounts it. The other entries keep
        their order and every other list is left as it was. */
    method RemoveHashEntry(t: nat)
      requires Shape() && t < capacity && home[t] == InBucket(slots[t].matchTick % HASH_TABLE_SIZE)
      modifies this`buckets, this`home, next, prev, hashTable
      ensures Shape()
      ensures var b := slots[t].matchTick % HASH_TABLE_SIZE;
        && buckets == old(buckets)[b := Without(old(buckets[b]), t)]
        && home == old(home)[t := Detached]
        && hashTable[b].timerCount == Wrap8(old(hashTable[b].timerCount) - 1)
      ensures next[t] == NIL && prev[t] == NIL
    {
      var index := slots[t].matchTick % HASH_TABLE_SIZE;
      ghost var tab, bk, h0, n0, p0 := hashTable[..], buckets, home, next[..], prev[..];
      BucketEntry(freeTmrListPtr, freeTmrCount, freeList, tab, bk, h0, n0, p0, t, index);
      SpliceOut(t, index);
      ghost var pt, nt := p0[t], n0[t];
      ghost var tab' := tab[index := HashObj(Wrap8(tab[index].timerCount - 1), if pt == NIL then nt else tab[index].listPtr)];
      assert hashTable[..] == tab';
      assert next[..] == (if pt == NIL then n0 else n0[pt := nt])[t := NIL];
      assert prev[..] == (if nt == NIL then p0 else p0[nt := pt])[t := NIL];
      buckets := buckets[index := Without(bk[index], t)];
      home := home[t := Detached];
      UnlinkBucket(freeTmrListPtr, freeTmrCount, freeList, tab, bk, h0, n0, p0, t, index, next[..], prev[..]);
    }

    /** The pointer work of `remove_hash_entry` on the links and on entry `index` of the table. */
    method SpliceOut(t: nat, index: nat)
      requires t < next.Length && t < prev.Length && next != prev
      requires hashTable.Length == HASH_TABLE_SIZE && index < HASH_TABLE_SIZE
      requires prev[t] == NIL || 0 <= prev[t] < next.Length
      requires next[t] == NIL || 0 <= next[t] < prev.Length
      modifies next, prev, hashTable
      ensures var pt, nt := old(prev[t]), old(next[t]);
        && next[..] == (if pt == NIL then old(next[..]) else old(next[..])[pt := nt])[t := NIL]
        && prev[..] == (if nt == NIL then old(prev[..]) else old(prev[..])[nt := pt])[t := NIL]
        && hashTable[..] == old(hashTable[..])[index := HashObj(Wrap8(old(hashTable[index].timerCount) - 1),
                                                               if pt == NIL then nt else old(hashTable[index].listPtr))]
    {
      if prev[t] == NIL {
        hashTable[index] := hashTable[index].(listPtr := next[t]);
        if hashTable[index].listPtr != NIL {
          prev[hashTable[index].listPtr] := NIL;
        }
        next[t] := NIL;
        prev[t] := NIL;
      } else {
        next[prev[t]] := next[t];
        if next[t] != NIL {
          prev[next[t]] := prev[t];
        }
        next[t] := NIL;
        prev[t] := NIL;
      }
      hashTable[index] := hashTable[index].(timerCount := Wrap8(hashTable[index].timerCount - 1));
    }

    /** `RTOSTmrCreate`: checks the option, then the delay (one-shot) or period (periodic), then
        takes an object from the pool and fills it in, STOPPED. */
    method RTOSTmrCreate(delay: U32, period: U32, option: U8, callback: Ptr, callbackArg: Ptr, name: Ptr)
      returns (ptmr: int, err: U8)
      requires Valid()
      modifies this`freeTmrCount, this`freeTmrListPtr, this`freeList, this`home, next, prev, slots
      ensures Valid()
      ensures option != RTOS_TMR_ONE_SHOT && option != RTOS_TMR_PERIODIC ==> err == RTOS_ERR_TMR_INVALID_OPT
      ensures ((option == RTOS_TMR_ONE_SHOT || option == RTOS_TMR_PERIODIC) && !CreateArgsOk(delay, period, option))
                ==> err == RTOS_ERR_TMR_INVALID_DLY
      ensures (CreateArgsOk(delay, period, option) && (old(freeTmrCount) == 0 || old(freeList) == []))
                ==> err == RTOS_ERR_TMR_NON_AVAIL
      ensures (CreateArgsOk(delay, period, option) && old(freeTmrCount) != 0 && old(freeList) != [])
                ==> err == RTOS_SUCCESS
      ensures err != RTOS_SUCCESS ==> ptmr == NIL && Model() == old(Model())
      ensures err == RTOS_SUCCESS ==>
        && ptmr == old(freeList)[0] && freeList == old(freeList)[1..]
        && freeTmrCount == old(freeTmrCount) - 1
        && slots[..] == old(slots[..])[ptmr := Tmr(RTOS_TMR_TYPE, callback, callbackArg, 0, delay, period,
                                                   name, option, Stopped)]
        && RTOSTmrNameGet(ptmr) == (name, RTOS_SUCCESS)
        && RTOSTmrStateGet(ptmr) == (StateCode(Stopped), RTOS_SUCCESS)
    {
      if option != RTOS_TMR_ONE_SHOT && option != RTOS_TMR_PERIODIC {
        return NIL, RTOS_ERR_TMR_INVALID_OPT;
      }
      if option == RTOS_TMR_ONE_SHOT {
        if delay <= 0 {
          return NIL, RTOS_ERR_TMR_INVALID_DLY;
        }
      } else {
        if period <= 0 || delay < 0 {
          return NIL, RTOS_ERR_TMR_INVALID_DLY;
        }
      }
      ghost var s0, h0 := slots[..], home;
      ptmr := AllocTimerObj();
      if ptmr == NIL {
        return NIL, RTOS_ERR_TMR_NON_AVAIL;
      }
      assert Agrees(s0[ptmr], h0[ptmr]);
      slots[ptmr] := slots[ptmr].(tmrType := RTOS_TMR_TYPE, callback := callback, callbackArg := callbackArg,
                                  delay := delay, period := period, name := name, opt := option,
                                  state := Stopped);
      AllAgreeUpdate(s0, h0, ptmr, slots[ptmr], Detached);
      assert slots[..] == s0[ptmr := slots[ptmr]];
      err := RTOS_SUCCESS;
    }

    /** `RTOSTmrDel`: rejects a NULL, untagged or UNUSED handle; otherwise unlinks a RUNNING
        timer from its bucket and returns the object to the pool. */
    method RTOSTmrDel(ptmr: int) returns (ok: U8, err: U8)
      requires Valid() && (ptmr == NIL || 0 <= ptmr < capacity)
      modifies this`freeTmrCount, this`freeTmrListPtr, this`freeList, this`home, this`buckets,
               next, prev, slots, hashTable
      ensures Valid()
      ensures ptmr == NIL ==> err == RTOS_ERR_TMR_INVALID
      ensures ptmr != NIL && old(slots[ptmr].tmrType) != RTOS_TMR_TYPE ==> err == RTOS_ERR_TMR_INVALID_TYPE
      ensures (ptmr != NIL && old(slots[ptmr].tmrType) == RTOS_TMR_TYPE && old(slots[ptmr].state) == Unused)
                ==> err == RTOS_ERR_TMR_INACTIVE
      ensures ok == (if err == RTOS_SUCCESS then RTOS_TRUE else RTOS_FALSE)
      ensures err != RTOS_SUCCESS ==> Model() == old(Model())
      ensures old(Active(ptmr)) ==>
        && err == RTOS_SUCCESS
        && slots[..] == old(slots[..])[ptmr := Cleared(old(slots[ptmr]))]
        && freeList == [ptmr] + old(freeList)
        && freeTmrCount == Wrap8(old(freeTmrCount) + 1)
        && buckets == if old(slots[ptmr].state) == Running
                      then var b := old(slots[ptmr].matchTick) % HASH_TABLE_SIZE;
                        old(buckets)[b := Without(old(buckets[b]), ptmr)]
                      else old(buckets)
    {
      if ptmr == NIL {
        return RTOS_FALSE, RTOS_ERR_TMR_INVALID;
      }
      if slots[ptmr].tmrType != RTOS_TMR_TYPE {
        return RTOS_FALSE, RTOS_ERR_TMR_INVALID_TYPE;
      }
      if slots[ptmr].state == Unused {
        return RTOS_FALSE, RTOS_ERR_TMR_INACTIVE;
      }
      DeleteTimer(ptmr);
      return RTOS_TRUE, RTOS_SUCCESS;
    }

    /** The part of `RTOSTmrDel` past its checks: a STOPPED or COMPLETED timer goes straight back
        to the pool, a RUNNING one is first unlinked from its bucket. */
    method DeleteTimer(ptmr: nat)
      requires Valid() && ptmr < capacity && slots[ptmr].state != Unused
      modifies this`freeTmrCount, this`freeTmrListPtr, this`freeList, this`home, this`buckets,
               next, prev, slots, hashTable
      ensures Valid()
      ensures var t := old(slots[ptmr]);
        && slots[..] == old(slots[..])[ptmr := Cleared(t)]
        && freeList == [ptmr] + old(freeList)
        && freeTmrCount == Wrap8(old(freeTmrCount) + 1)
        && buckets == if t.state == Running
                      then var b := t.matchTick % HASH_TABLE_SIZE; old(buckets)[b := Without(old(buckets[b]), ptmr)]
                      else old(buckets)
    {
      ghost var s0, h0 := slots[..], home;
      assert Agrees(s0[ptmr], h0[ptmr]);
      // Every case of the switch ends in `free_timer_obj`; only RUNNING unlinks first.
      if slots[ptmr].state == Running {
        RemoveHashEntry(ptmr);
      }
      FreeTimerObj(ptmr);
      assert home == h0[ptmr := InFreeList];
      AllAgreeUpdate(s0, h0, ptmr, Cleared(s0[ptmr]), InFreeList);
    }

    /** `RTOSTmrNameGet`: the name of an active timer, NULL and an error code otherwise. */
    function RTOSTmrNameGet(ptmr: int): (r: (Ptr, U8))
      reads slots
      requires ptmr == NIL || 0 <= ptmr < slots.Length
      ensures r.1 == RTOS_SUCCESS <==> Active(ptmr)
      ensures r.1 == RTOS_SUCCESS ==> r.0 == slots[ptmr].name
      ensures r.1 != RTOS_SUCCESS ==> r.0 == NULL
    {
      if ptmr == NIL then (NULL, RTOS_ERR_TMR_INVALID)
      else if slots[ptmr].tmrType != RTOS_TMR_TYPE then (NULL, RTOS_ERR_TMR_INVALID_TYPE)
      else if slots[ptmr].state == Unused then (NULL, RTOS_ERR_TMR_INACTIVE)
      else (slots[ptmr].name, RTOS_SUCCESS)
    }

    /** `RTOSTmrRemainGet`: for an active timer, the ticks left until its match tick while it
        is RUNNING (32-bit unsigned difference), else 0. */
    function RTOSTmrRemainGet(ptmr: int): (r: (U32, U8))
      reads this, slots
      requires ptmr == NIL || 0 <= ptmr < slots.Length
      ensures r.1 == RTOS_SUCCESS <==> Active(ptmr)
      ensures r.1 == RTOS_SUCCESS && slots[ptmr].state == Running ==> Wrap32(tickCtr + r.0) == slots[ptmr].matchTick
      ensures r.1 != RTOS_SUCCESS || slots[ptmr].state != Running ==> r.0 == 0
    {
      if ptmr == NIL then (0, RTOS_ERR_TMR_INVALID)
      else if slots[ptmr].tmrType != RTOS_TMR_TYPE then (0, RTOS_ERR_TMR_INVALID_TYPE)
      else if slots[ptmr].state == Unused then (0, RTOS_ERR_TMR_INACTIVE)
      else if slots[ptmr].state == Running then (Wrap32(slots[ptmr].matchTick - tickCtr), RTOS_SUCCESS)
      else (0, RTOS_SUCCESS)
    }

    /** `RTOSTmrStateGet`: the state code of any tagged timer, UNUSED ones included. */
    function RTOSTmrStateGet(ptmr: int): (r: (U8, U8))
      reads slots
      requires ptmr == NIL || 0 <= ptmr < slots.Length
      ensures r.1 == RTOS_SUCCESS <==> ptmr != NIL && slots[ptmr].tmrType == RTOS_TMR_TYPE
      ensures r.1 == RTOS_SUCCESS ==> r.0 == StateCode(slots[ptmr].state) && r.0 != 0
      ensures r.1 != RTOS_SUCCESS ==> r.0 == 0
    {
      if ptmr == NIL then (0, RTOS_ERR_TMR_INVALID)
      else if slots[ptmr].tmrType != RTOS_TMR_TYPE then (0, RTOS_ERR_TMR_INVALID_TYPE)
      else (StateCode(slots[ptmr].state), RTOS_SUCCESS)
    }

    /** `RTOSTmrStart`: a STOPPED or COMPLETED timer gets the match tick of its first expiry
        and is linked into that bucket, RUNNING; a RUNNING timer is left alone. */
    method RTOSTmrStart(ptmr: int) returns (ok: U8, err: U8)
      requires Valid() && 0 <= ptmr < capacity
      modifies this`buckets, this`home, next, prev, hashTable, slots
      ensures Valid()
      ensures old(slots[ptmr].tmrType) != RTOS_TMR_TYPE ==> err == RTOS_ERR_TMR_INVALID_TYPE
      ensures (old(slots[ptmr].tmrType) == RTOS_TMR_TYPE && old(slots[ptmr].state) == Unused)
                ==> err == RTOS_ERR_TMR_INACTIVE
      ensures old(Active(ptmr)) ==> err == RTOS_SUCCESS
      ensures ok == (if err == RTOS_SUCCESS then RTOS_TRUE else RTOS_FALSE)
      ensures err != RTOS_SUCCESS || old(slots[ptmr].state) == Running ==> Model() == old(Model())
      ensures old(Active(ptmr)) && old(slots[ptmr].state) != Running ==>
        var t := old(slots[ptmr]);
        var m := Wrap32(tickCtr + FirstExpiry(t));
        && slots[..] == old(slots[..])[ptmr := t.(matchTick := m, state := Running)]
        && buckets == old(buckets)[m % HASH_TABLE_SIZE := [ptmr] + old(buckets[m % HASH_TABLE_SIZE])]
        && RTOSTmrRemainGet(ptmr) == (FirstExpiry(t), RTOS_SUCCESS)
    {
      if slots[ptmr].tmrType != RTOS_TMR_TYPE {
        return RTOS_FALSE, RTOS_ERR_TMR_INVALID_TYPE;
      }
      if slots[ptmr].state == Unused {
        return RTOS_FALSE, RTOS_ERR_TMR_INACTIVE;
      } else if slots[ptmr].state == Stopped || slots[ptmr].state == Completed {
        ArmTimer(ptmr);
      }
      return RTOS_TRUE, RTOS_SUCCESS;
    }

    /** The STOPPED/COMPLETED branch of `RTOSTmrStart`: sets the match tick to the current tick
        plus the first-expiry interval, links the timer into that bucket and makes it RUNNING. */
    method ArmTimer(ptmr: nat)
      requires Valid() && ptmr < capacity && slots[ptmr].tmrType == RTOS_TMR_TYPE
      requires slots[ptmr].state == Stopped || slots[ptmr].state == Completed
      modifies this`buckets, this`home, next, prev, hashTable, slots
      ensures Valid()
      ensures var t := old(slots[ptmr]);
        var m := Wrap32(tickCtr + FirstExpiry(t));
        && slots[..] == old(slots[..])[ptmr := t.(matchTick := m, state := Running)]
        && buckets == old(buckets)[m % HASH_TABLE_SIZE := [ptmr] + old(buckets[m % HASH_TABLE_SIZE])]
        && RTOSTmrRemainGet(ptmr) == (FirstExpiry(t), RTOS_SUCCESS)
    {
      ghost var s0, h0 := slots[..], home;
      assert Agrees(s0[ptmr], h0[ptmr]);
      StartedRemain(slots[ptmr], tickCtr);
      if slots[ptmr].opt == RTOS_TMR_ONE_SHOT {
        slots[ptmr] := slots[ptmr].(matchTick := Wrap32(tickCtr + slots[ptmr].delay));
        InsertHashEntry(ptmr);
      } else {
        if slots[ptmr].delay <= 0 {
          slots[ptmr] := slots[ptmr].(matchTick := Wrap32(tickCtr + slots[ptmr].period));
        } else {
          slots[ptmr] := slots[ptmr].(matchTick := Wrap32(tickCtr + slots[ptmr].delay));
        }
        InsertHashEntry(ptmr);
      }
      slots[ptmr] := slots[ptmr].(state := Running);
      ghost var m := Wrap32(tickCtr + FirstExpiry(s0[ptmr]));
      assert slots[ptmr] == s0[ptmr].(matchTick := m, state := Running);
      assert slots[..] == s0[ptmr := slots[ptmr]];
      assert home == h0[ptmr := InBucket(m % HASH_TABLE_SIZE)];
      AllAgreeUpdate(s0, h0, ptmr, slots[ptmr], InBucket(m % HASH_TABLE_SIZE));
    }

    /** `RTOSTmrStop`: after the handle, option and STOPPED checks, unlinks a RUNNING timer,
        makes the timer STOPPED and runs the callback the option asks for. */
    method RTOSTmrStop(ptmr: int, opt: U8, callbackArg: Ptr) returns (ok: U8, err: U8)
      requires Valid() && (ptmr == NIL || 0 <= ptmr < capacity)
      modifies this`buckets, this`home, this`fired, next, prev, hashTable, slots
      ensures Valid()
      ensures ptmr == NIL ==> err == RTOS_ERR_TMR_INVALID
      ensures ptmr != NIL && old(slots[ptmr].tmrType) != RTOS_TMR_TYPE ==> err == RTOS_ERR_TMR_INVALID_TYPE
      ensures (ptmr != NIL && old(slots[ptmr].tmrType) == RTOS_TMR_TYPE && old(slots[ptmr].state) == Unused)
                ==> err == RTOS_ERR_TMR_INACTIVE
      ensures (old(Active(ptmr)) && opt != RTOS_TMR_OPT_NONE && opt != RTOS_TMR_OPT_CALLBACK
                && opt != RTOS_TMR_OPT_CALLBACK_ARG) ==> err == RTOS_ERR_TMR_INVALID_OPT
      ensures (old(Active(ptmr)) && RTOS_TMR_OPT_NONE <= opt <= RTOS_TMR_OPT_CALLBACK_ARG
                && old(slots[ptmr].state) == Stopped) ==> err == RTOS_ERR_TMR_STOPPED
      ensures ok == (if err == RTOS_SUCCESS then RTOS_TRUE else RTOS_FALSE)
      ensures err != RTOS_SUCCESS ==> Model() == old(Model())
      ensures (old(Active(ptmr)) && RTOS_TMR_OPT_NONE <= opt <= RTOS_TMR_OPT_CALLBACK_ARG
                && old(slots[ptmr].state) != Stopped) ==>
        var t := old(slots[ptmr]);
        && err == RTOS_SUCCESS
        && slots[..] == old(slots[..])[ptmr := t.(state := Stopped)]
        && buckets == (if t.state == Running
                       then var b := t.matchTick % HASH_TABLE_SIZE; old(buckets)[b := Without(old(buckets[b]), ptmr)]
                       else old(buckets))
        && fired == old(fired) + StopEvents(t, ptmr, opt, callbackArg, tickCtr)
    {
      if ptmr == NIL {
        return RTOS_FALSE, RTOS_ERR_TMR_INVALID;
      }
      if slots[ptmr].tmrType != RTOS_TMR_TYPE {
        return RTOS_FALSE, RTOS_ERR_TMR_INVALID_TYPE;
      }
      if slots[ptmr].state == Unused {
        return RTOS_FALSE, RTOS_ERR_TMR_INACTIVE;
      }
      if opt != RTOS_TMR_OPT_NONE && opt != RTOS_TMR_OPT_CALLBACK && opt != RTOS_TMR_OPT_CALLBACK_ARG {
        return RTOS_FALSE, RTOS_ERR_TMR_INVALID_OPT;
      }
      if slots[ptmr].state == Stopped {
        return RTOS_FALSE, RTOS_ERR_TMR_STOPPED;
      }
      StopTimer(ptmr, opt, callbackArg);
      return RTOS_TRUE, RTOS_SUCCESS;
    }

    /** The part of `RTOSTmrStop` past its checks: unlinks a RUNNING timer, makes it STOPPED and
        runs the callback `opt` asks for. A COMPLETED timer is on no list and is not unlinked. */
    method StopTimer(ptmr: nat, opt: U8, callbackArg: Ptr)
      requires Valid() && ptmr < capacity && slots[ptmr].tmrType == RTOS_TMR_TYPE
      requires slots[ptmr].state == Running || slots[ptmr].state == Completed
      modifies this`buckets, this`home, this`fired, next, prev, hashTable, slots
      ensures Valid()
      ensures var t := old(slots[ptmr]);
        && slots[..] == old(slots[..])[ptmr := t.(state := Stopped)]
        && buckets == (if t.state == Running
                       then var b := t.matchTick % HASH_TABLE_SIZE; old(buckets)[b := Without(old(buckets[b]), ptmr)]
                       else old(buckets))
        && fired == old(fired) + StopEvents(t, ptmr, opt, callbackArg, tickCtr)
    {
      if slots[ptmr].state == Running {
        StopRunning(ptmr);
      } else {
        ghost var s0, h0 := slots[..], home;
        assert Agrees(s0[ptmr], h0[ptmr]);
        slots[ptmr] := slots[ptmr].(state := Stopped);
        assert slots[..] == s0[ptmr := slots[ptmr]];
        AllAgreeUpdate(s0, h0, ptmr, slots[ptmr], Detached);
      }
      if opt == RTOS_TMR_OPT_CALLBACK {
        fired := fired + [Event(tickCtr, ptmr, slots[ptmr].callback, slots[ptmr].callbackArg)];
      } else if opt == RTOS_TMR_OPT_CALLBACK_ARG {
        fired := fired + [Event(tickCtr, ptmr, slots[ptmr].callback, callbackArg)];
      }
    }

    /** A RUNNING timer leaves its bucket and becomes STOPPED; every other timer and list is kept. */
    method StopRunning(ptmr: nat)
      requires Valid() && ptmr < capacity && slots[ptmr].state == Running
      modifies this`buckets, this`home, next, prev, hashTable, slots
      ensures Valid()
      ensures var t := old(slots[ptmr]); var b := t.matchTick % HASH_TABLE_SIZE;
        && slots[..] == old(slots[..])[ptmr := t.(state := Stopped)]
        && buckets == old(buckets)[b := Without(old(buckets[b]), ptmr)]
    {
      ghost var s0, h0 := slots[..], home;
      assert Agrees(s0[ptmr], h0[ptmr]);
      RemoveHashEntry(ptmr);
      SetSlot(ptmr, slots[ptmr].(state := Stopped));
      assert home == h0[ptmr := Detached];
      AllAgreeUpdate(s0, h0, ptmr, slots[ptmr], Detached);
    }

    /** Writes one timer object; the links do not live in it and are left sound. */
    method SetSlot(x: nat, t: Tmr)
      requires Shape() && x < capacity
      modifies slots
      ensures Shape() && slots[..] == old(slots[..])[x := t]
    {
      slots[x] := t;
    }

    /** The due branch of the timer task's scan for timer `x`: its callback runs, it is unlinked
        from its bucket, and then a periodic timer is re-armed `period` ticks on and linked into
        the bucket of its new match tick while any other timer becomes COMPLETED. */
    method FireTimer(x: nat)
      requires Valid() && x < capacity && slots[x].state == Running && slots[x].matchTick == tickCtr
      modifies this`buckets, this`home, this`fired, next, prev, hashTable, slots
      ensures Valid()
      ensures Wheel(slots[..], buckets, fired) == FireOne(old(Wheel(slots[..], buckets, fired)), x, tickCtr)
    {
      ghost var s0, h0, w := slots[..], home, Wheel(slots[..], buckets, fired);
      assert Agrees(s0[x], h0[x]);
      var t := slots[x];
      fired := fired + [FiredEvent(t, x, tickCtr)];
      RemoveHashEntry(x);
      FireOneDue(w, x, tickCtr, buckets);
      Rearm(x, t);
      AllAgreeUpdate(s0, h0, x, Fire(t, tickCtr), ExpectedHome(Fire(t, tickCtr)));
    }

    /** The end of the due branch for a detached RUNNING timer `x` whose contents were `t`: a
        periodic timer gets its next match tick and goes on the head of that bucket, any other
        becomes COMPLETED and stays detached. */
    method Rearm(x: nat, t: Tmr)
      requires Shape() && x < capacity && home[x] == Detached && slots[x] == t && t.state == Running
      modifies this`buckets, this`home, next, prev, hashTable, slots
      ensures Shape()
      ensures slots[..] == old(slots[..])[x := Fire(t, tickCtr)]
      ensures home == old(home)[x := ExpectedHome(Fire(t, tickCtr))]
      ensures var b := Fire(t, tickCtr).matchTick % HASH_TABLE_SIZE;
        buckets == if t.opt == RTOS_TMR_PERIODIC then old(buckets)[b := [x] + old(buckets[b])] else old(buckets)
    {
      if t.opt == RTOS_TMR_PERIODIC {
        SetSlot(x, t.(matchTick := Wrap32(tickCtr + t.period)));
        InsertHashEntry(x);
      } else {
        SetSlot(x, t.(state := Completed));
      }
    }

    /** One pass of the timer task's loop, after the semaphore wait: the tick counter goes up by
        one (modulo 2^32) and the bucket of the new tick is walked from its head, firing every
        entry whose match tick is the new tick and skipping the others. */
    method TickStep()
      requires Valid()
      modifies this`tickCtr, this`buckets, this`home, this`fired, next, prev, hashTable, slots
      ensures Valid()
      ensures tickCtr == Wrap32(old(tickCtr) + 1)
      ensures Indexes(old(buckets)[tickCtr % HASH_TABLE_SIZE], capacity)
      ensures Wheel(slots[..], buckets, fired)
                == Scan(old(Wheel(slots[..], buckets, fired)), old(buckets)[tickCtr % HASH_TABLE_SIZE], tickCtr)
    {
      tickCtr := Wrap32(tickCtr + 1);
      var index := tickCtr % HASH_TABLE_SIZE;
      var tmr := hashTable[index].listPtr;
      ghost var orig := buckets[index];
      ghost var w0 := Wheel(slots[..], buckets, fired);
      ghost var pre: seq<nat> := [];
      ghost var k := 0;
      BucketView(freeTmrListPtr, freeTmrCount, freeList, hashTable[..], buckets, home, next[..], prev[..], index);
      ScanStart(index, tmr, orig, w0);
      while tmr != NIL
        invariant Valid() && tickCtr == Wrap32(old(tickCtr) + 1)
        invariant Scanned(index, tmr, pre, orig, k, w0)
        decreases |orig| - k
      {
        tmr, pre := ScanAdvance(index, tmr, pre, orig, k, w0);
        k := k + 1;
      }
      ScanDone(index, pre, orig, k, w0);
    }

    /** Before the scan: nothing visited, the cursor on the head of the bucket's original list. */
    lemma ScanStart(index: nat, tmr: int, orig: seq<nat>, w0: Wheel)
      requires index == tickCtr % HASH_TABLE_SIZE && |buckets| == HASH_TABLE_SIZE && orig == buckets[index]
      requires w0 == Wheel(slots[..], buckets, fired)
      requires NoDup(orig) && Indexes(orig, slots.Length) && tmr == (if orig == [] then NIL else orig[0])
      ensures Scanned(index, tmr, [], orig, 0, w0)
    {
      assert orig[..0] == [] && orig[0..] == orig;
    }

    /** After the scan: every entry of the original list has been visited. */
    lemma ScanDone(index: nat, pre: seq<nat>, orig: seq<nat>, k: nat, w0: Wheel)
      requires Scanned(index, NIL, pre, orig, k, w0)
      ensures Indexes(orig, |w0.timers|)
      ensures Wheel(slots[..], buckets, fired) == Scan(w0, orig, tickCtr)
    {
      assert k == |orig| && orig[..k] == orig;
    }

    /** The scan of bucket `index` has visited the first `k` entries of its original list `orig`:
        `tmr` is the next one, the bucket holds `pre` (the visited entries still there, or back
        there) followed by the unvisited ones, and the engine is as `Scan` says. */
    ghost predicate Scanned(index: nat, tmr: int, pre: seq<nat>, orig: seq<nat>, k: nat, w0: Wheel)
      reads this`buckets, this`fired, this`tickCtr, slots
    {
      && index == tickCtr % HASH_TABLE_SIZE && |w0.buckets| == HASH_TABLE_SIZE
      && k <= |orig| && NoDup(orig) && Indexes(orig, |w0.timers|)
      && tmr == (if k < |orig| then orig[k] else NIL)
      && |buckets| == HASH_TABLE_SIZE && buckets[index] == pre + orig[k..]
      && (forall y :: y in pre ==> y in orig[..k])
      && Wheel(slots[..], buckets, fired) == Scan(w0, orig[..k], tickCtr)
    }

    /** One step of the scan, from the state after `k` entries to the state after `k + 1`. */
    method ScanAdvance(index: nat, tmr: int, ghost pre: seq<nat>, ghost orig: seq<nat>, ghost k: nat, ghost w0: Wheel)
      returns (nextTmr: int, ghost pre': seq<nat>)
      requires Valid() && Scanned(index, tmr, pre, orig, k, w0) && tmr != NIL
      modifies this`buckets, this`home, this`fired, next, prev, hashTable, slots
      ensures Valid() && Scanned(index, nextTmr, pre', orig, k + 1, w0)
    {
      ScanStep(w0, orig, k, tickCtr);
      PrefixNotIn(pre, orig, k);
      assert orig[k..][1..] == orig[k + 1..];
      ScanCursor(index, tmr, pre, orig[k..]);
      nextTmr, pre' := ScanEntry(index, tmr, pre, orig[k..]);
    }

    /** One iteration of the scan, on the entry `tmr` that follows `pre` in bucket `index`:
        fires it when its match tick is the current tick and returns the entry to visit next. */
    method ScanEntry(index: nat, tmr: nat, ghost pre: seq<nat>, ghost rest: seq<nat>)
      returns (nextTmr: int, ghost pre': seq<nat>)
      requires Valid() && index == tickCtr % HASH_TABLE_SIZE && tmr < capacity
      requires buckets[index] == pre + rest && rest != [] && rest[0] == tmr && tmr !in pre
      modifies this`buckets, this`home, this`fired, next, prev, hashTable, slots
      ensures Valid()
      ensures Wheel(slots[..], buckets, fired) == FireOne(old(Wheel(slots[..], buckets, fired)), tmr, tickCtr)
      ensures buckets[index] == pre' + rest[1..]
      ensures forall y :: y in pre' ==> y in pre || y == tmr
      ensures nextTmr == if |rest| > 1 then rest[1] else NIL
    {
      ghost var w := Wheel(slots[..], buckets, fired);
      ScanCursor(index, tmr, pre, rest);
      if slots[tmr].matchTick == tickCtr {
        nextTmr := next[tmr];
        assert rest == [tmr] + rest[1..];
        FireOneBucket(w, tmr, tickCtr, pre, rest[1..]);
        FireTimer(tmr);
        if slots[tmr].opt == RTOS_TMR_PERIODIC && slots[tmr].matchTick % HASH_TABLE_SIZE == index {
          pre' := [tmr] + pre;
        } else {
          pre' := pre;
        }
      } else {
        pre' := pre + [tmr];
        nextTmr := next[tmr];
        assert pre' + rest[1..] == pre + rest;
      }
    }

    /** The cursor of the scan stands at position `|pre|` of bucket `index`, on a RUNNING slot when
        it is due; its successor there is the next entry of the scan. */
    lemma ScanCursor(index: nat, tmr: nat, pre: seq<nat>, rest: seq<nat>)
      requires Valid() && index < HASH_TABLE_SIZE
      requires buckets[index] == pre + rest && rest != [] && rest[0] == tmr
      ensures tmr < capacity
      ensures next[tmr] == if |rest| > 1 then rest[1] else NIL
      ensures home[tmr] == InBucket(index)
      ensures slots[tmr].matchTick == tickCtr ==> slots[tmr].state == Running
    {
      BucketView(freeTmrListPtr, freeTmrCount, freeList, hashTable[..], buckets, home, next[..], prev[..], index);
      var s := buckets[index];
      assert s[|pre|] == tmr;
      LinksAt(hashTable[index].listPtr, s, next[..], prev[..], |pre|);
      if |rest| > 1 { assert s[|pre| + 1] == rest[1]; }
      assert Agrees(slots[tmr], home[tmr]);
    }
  }
}
