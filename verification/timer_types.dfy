/** Constants and data layout of the timer manager (TimerAPI.h). */
module TimerTypes {

  /** `INT8U` and `INT32U`: C unsigned integers of 8 and 32 bits. */
  type U8 = x: int | 0 <= x < 0x100
  type U32 = x: int | 0 <= x < 0x1_0000_0000

  /** Unsigned C arithmetic wraps modulo 2^8 and 2^32. */
  function Wrap8(x: int): U8 { x % 0x100 }
  function Wrap32(x: int): U32 { x % 0x1_0000_0000 }

  /** An 8-bit counter that tracks the length of a list modulo 2^8 keeps tracking it
      across one increment or one decrement, wrapping as `INT8U` does. */
  lemma Wrap8Step(c: U8, n: nat)
    requires c == n % 0x100
    ensures Wrap8(c + 1) == (n + 1) % 0x100
    ensures n > 0 ==> Wrap8(c - 1) == (n - 1) % 0x100
    ensures c > 0 ==> n > 0 && c - 1 == (n - 1) % 0x100
  {
    var q := n / 0x100;
    assert n == 0x100 * q + c;
    if c + 1 < 0x100 {
      assert n + 1 == 0x100 * q + (c + 1);
    } else {
      assert n + 1 == 0x100 * (q + 1);
    }
    if c > 0 {
      assert n - 1 == 0x100 * q + (c - 1);
    } else if n > 0 {
      assert q > 0;
      assert n - 1 == 0x100 * (q - 1) + 0xFF;
    }
  }

  /** An opaque C pointer (callback, callback argument, name string); 0 is NULL. */
  type Ptr = nat
  const NULL: Ptr := 0

  /** A timer handle is the index of a slot of the timer arena; NIL is a NULL `RTOS_TMR *`. */
  const NIL: int := -1

  const RTOS_TMR_TYPE: U8 := 20

  const RTOS_FALSE: U8 := 0
  const RTOS_TRUE: U8 := 1

  /** Timer states; `StateCode` gives the `INT8U` value the C code stores. */
  datatype TmrState = Unused | Stopped | Running | Completed

  function StateCode(s: TmrState): (c: U8)
    ensures 1 <= c <= 4
  {
    match s
    case Unused => 1
    case Stopped => 2
    case Running => 3
    case Completed => 4
  }

  const RTOS_TMR_ONE_SHOT: U8 := 1
  const RTOS_TMR_PERIODIC: U8 := 2

  const RTOS_ERR_NONE: U8 := 0
  const RTOS_SUCCESS: U8 := 0
  const RTOS_MALLOC_ERR: U8 := 1
  const RTOS_ERR_TMR_INVALID_DLY: U8 := 2
  const RTOS_ERR_TMR_INVALID_PERIOD: U8 := 3
  const RTOS_ERR_TMR_INVALID_OPT: U8 := 4
  const RTOS_ERR_TMR_NON_AVAIL: U8 := 5
  const RTOS_ERR_TMR_INVALID_TYPE: U8 := 6
  const RTOS_ERR_TMR_INACTIVE: U8 := 7
  const RTOS_ERR_TMR_INVALID_STATE: U8 := 8
  const RTOS_ERR_TMR_INVALID: U8 := 9
  const RTOS_ERR_TMR_STOPPED: U8 := 10
  const RTOS_ERR_TMR_NO_CALLBACK: U8 := 11

  const RTOS_TMR_OPT_NONE: U8 := 1
  const RTOS_TMR_OPT_CALLBACK: U8 := 2
  const RTOS_TMR_OPT_CALLBACK_ARG: U8 := 3

  const HASH_TABLE_SIZE: nat := 10

  /** An `RTOS_TMR` without its list links, which live in the arena's `next`/`prev` arrays. */
  datatype Tmr = Tmr(
    tmrType: U8,
    callback: Ptr,
    callbackArg: Ptr,
    matchTick: U32,
    delay: U32,
    period: U32,
    name: Ptr,
    opt: U8,
    state: TmrState)

  /** A `HASH_OBJ`: the number of timers in a bucket and the head of its list. */
  datatype HashObj = HashObj(timerCount: U8, listPtr: int)

  /** A callback invocation, recorded instead of executed: at which tick, for which timer, what was called with what. */
  datatype Event = Event(tick: U32, timer: nat, callback: Ptr, arg: Ptr)

  /** The zero-filled contents the model gives a pool object before its first use. */
  const BlankTmr := Tmr(0, NULL, NULL, 0, 0, 0, NULL, 0, Unused)

  /** What `free_timer_obj` leaves in a timer: every field cleared but the type tag, state UNUSED. */
  function Cleared(t: Tmr): (r: Tmr)
    ensures r.state == Unused && r.tmrType == t.tmrType
    ensures r.callback == NULL && r.callbackArg == NULL && r.name == NULL
    ensures r.delay == 0 && r.period == 0 && r.matchTick == 0 && r.opt == 0
  {
    Tmr(t.tmrType, NULL, NULL, 0, 0, 0, NULL, 0, Unused)
  }

  /** What the creation checks guarantee of every timer handed out: a timer tag,
      a known option, a nonzero delay for a one-shot and a nonzero period for a periodic timer. */
  ghost predicate WellFormed(t: Tmr)
  {
    && t.tmrType == RTOS_TMR_TYPE
    && (t.opt == RTOS_TMR_ONE_SHOT || t.opt == RTOS_TMR_PERIODIC)
    && (t.opt == RTOS_TMR_ONE_SHOT ==> t.delay > 0)
    && (t.opt == RTOS_TMR_PERIODIC ==> t.period > 0)
  }

  /** Ticks from start to first expiry: the delay of a one-shot timer; for a periodic
      timer the delay when it is nonzero, else the period. */
  function FirstExpiry(t: Tmr): (r: U32)
    ensures r == t.delay || r == t.period
    ensures t.opt == RTOS_TMR_ONE_SHOT ==> r == t.delay
    ensures WellFormed(t) ==> r > 0
  {
    if t.opt == RTOS_TMR_ONE_SHOT then t.delay
    else if t.delay <= 0 then t.period
    else t.delay
  }

  /** A started well-formed timer never matches the tick it was started at, and the
      32-bit distance from that tick to its match is exactly its first-expiry interval. */
  lemma StartedRemain(t: Tmr, tick: U32)
    requires WellFormed(t)
    ensures var m := Wrap32(tick + FirstExpiry(t));
      m != tick && Wrap32(m - tick) == FirstExpiry(t)
  {
    var d := FirstExpiry(t);
    assert 0 < d < 0x1_0000_0000;
    if tick + d < 0x1_0000_0000 {
      assert Wrap32(tick + d) == tick + d;
    } else {
      assert Wrap32(tick + d) == tick + d - 0x1_0000_0000;
    }
  }

  /** A periodic timer re-armed at tick `tick` is due again after exactly `period` ticks, never at `tick` itself. */
  lemma PeriodicRearm(period: U32, tick: U32)
    requires period > 0
    ensures var m := Wrap32(tick + period);
      m != tick && Wrap32(m - tick) == period
  {
    if tick + period < 0x1_0000_0000 {
      assert Wrap32(tick + period) == tick + period;
    } else {
      assert Wrap32(tick + period) == tick + period - 0x1_0000_0000;
    }
  }
}
