/** The link structure of the timer arena as values: the free list and the ten bucket lists
    threaded through the `next`/`prev` links, with their heads and 8-bit counts, and the four
    splices TimerAPI.c performs on them (pop and push on the free list, push on the head of a
    bucket, unlink from a bucket), each shown to keep the structure sound. */
module Arena {
  import opened TimerTypes
  import opened Links

  /** Where a timer object is linked: on no list, on the free list, or in a bucket. */
  datatype Home = Detached | InFreeList | InBucket(b: nat)

  /** `s` holds distinct slots, all of which are recorded as living on list `h`. */
  ghost predicate Owned(s: seq<nat>, h: Home, home: seq<Home>)
  {
    && NoDup(s)
    && forall k :: 0 <= k < |s| ==> s[k] < |home| && home[s[k]] == h
  }

  /** Slot `i` is on the list its home names. */
  ghost predicate Listed(i: nat, h: Home, freeList: seq<nat>, buckets: seq<seq<nat>>)
  {
    match h
    case Detached => true
    case InFreeList => i in freeList
    case InBucket(b) => b < |buckets| && i in buckets[b]
  }

  /** Bucket `b`: its entry heads the list `s`, counts it modulo 2^8, and owns its slots. */
  ghost predicate BucketOk(e: HashObj, s: seq<nat>, b: nat, home: seq<Home>, next: seq<int>, prev: seq<int>)
  {
    && IsList(e.listPtr, s, next, prev)
    && e.timerCount == |s| % 0x100
    && Owned(s, InBucket(b), home)
  }

  /** The whole link structure: the free list and every bucket are sound lists, counted
      modulo 2^8, pairwise disjoint, and together hold exactly the slots `home` places on them;
      a slot on no list has both links NIL. */
  ghost predicate Linked(freeHead: int, freeCount: U8, freeList: seq<nat>, table: seq<HashObj>,
                         buckets: seq<seq<nat>>, home: seq<Home>, next: seq<int>, prev: seq<int>)
  {
    && |next| == |home| && |prev| == |home|
    && |table| == HASH_TABLE_SIZE && |buckets| == HASH_TABLE_SIZE
    && IsList(freeHead, freeList, next, prev)
    && freeCount == |freeList| % 0x100
    && Owned(freeList, InFreeList, home)
    && (forall b :: 0 <= b < HASH_TABLE_SIZE ==> BucketOk(table[b], buckets[b], b, home, next, prev))
    && (forall i :: 0 <= i < |home| ==> Listed(i, home[i], freeList, buckets))
    && DetachedClear(home, next, prev)
  }

  /** Every slot on no list has NIL links. */
  ghost predicate DetachedClear(home: seq<Home>, next: seq<int>, prev: seq<int>)
  {
    forall i :: 0 <= i < |home| && i < |next| && i < |prev| && home[i] == Detached ==> next[i] == NIL && prev[i] == NIL
  }

  /** Slots on no list keep NIL links across a splice that rewrites only the links of `touched`
      slots, none of them on no list except `t`, which is relabelled `h'`. */
  lemma DetachedKept(home: seq<Home>, next: seq<int>, prev: seq<int>, t: nat, h': Home, touched: set<int>,
                     next': seq<int>, prev': seq<int>)
    requires DetachedClear(home, next, prev) && t < |home|
    requires |next| == |home| && |prev| == |home| && |next'| == |home| && |prev'| == |home|
    requires forall x :: x in touched && 0 <= x < |home| && x != t ==> home[x] != Detached
    requires forall i :: 0 <= i < |next| && i !in touched ==> next'[i] == next[i]
    requires forall i :: 0 <= i < |prev| && i !in touched ==> prev'[i] == prev[i]
    requires h' == Detached ==> next'[t] == NIL && prev'[t] == NIL
    ensures DetachedClear(home[t := h'], next', prev')
  {
  }

  /** Relabelling a slot that is not on list `s` leaves `s` owned as before. */
  lemma OwnedFrame(s: seq<nat>, h: Home, home: seq<Home>, t: nat, h': Home)
    requires Owned(s, h, home) && t < |home| && home[t] != h
    ensures Owned(s, h, home[t := h'])
  {
  }

  /** Taking the slot at position `p` off list `s` and relabelling it leaves the rest owned. */
  lemma OwnedRemove(s: seq<nat>, p: nat, h: Home, home: seq<Home>, h': Home)
    requires Owned(s, h, home) && p < |s|
    ensures Owned(s[..p] + s[p + 1..], h, home[s[p] := h'])
  {
    NoDupRemove(s, p);
    var s' := s[..p] + s[p + 1..];
    assert forall i :: 0 <= i < |s'| ==> s'[i] == if i < p then s[i] else s[i + 1];
  }

  /** The buckets other than `skip` survive a splice that relabels slot `t` and rewrites only the
      links of `touched` slots, none of which lives in those buckets. */
  lemma BucketsKept(table: seq<HashObj>, buckets: seq<seq<nat>>, home: seq<Home>, next: seq<int>, prev: seq<int>,
                    skip: nat, t: nat, h': Home, touched: set<int>, next': seq<int>, prev': seq<int>)
    requires |table| == HASH_TABLE_SIZE && |buckets| == HASH_TABLE_SIZE
    requires |next'| == |next| && |prev'| == |prev| && t < |home| && t in touched
    requires forall b :: 0 <= b < HASH_TABLE_SIZE ==> BucketOk(table[b], buckets[b], b, home, next, prev)
    requires forall x :: x in touched && 0 <= x < |home| ==>
               home[x] == Detached || home[x] == InFreeList || home[x] == InBucket(skip)
    requires forall i :: 0 <= i < |next| && i !in touched ==> next'[i] == next[i]
    requires forall i :: 0 <= i < |prev| && i !in touched ==> prev'[i] == prev[i]
    ensures forall b :: 0 <= b < HASH_TABLE_SIZE && b != skip ==>
              BucketOk(table[b], buckets[b], b, home[t := h'], next', prev')
  {
    forall b | 0 <= b < HASH_TABLE_SIZE && b != skip
      ensures BucketOk(table[b], buckets[b], b, home[t := h'], next', prev')
    {
      assert BucketOk(table[b], buckets[b], b, home, next, prev);
      OwnedFrame(buckets[b], InBucket(b), home, t, h');
      IsListFrame(table[b].listPtr, buckets[b], next, prev, next', prev');
    }
  }

  /** The free list survives a splice that relabels slot `t` and rewrites only the links of
      `touched` slots, none of which is free. */
  lemma FreeKept(freeHead: int, freeList: seq<nat>, home: seq<Home>, next: seq<int>, prev: seq<int>,
                 t: nat, h': Home, touched: set<int>, next': seq<int>, prev': seq<int>)
    requires IsList(freeHead, freeList, next, prev) && Owned(freeList, InFreeList, home)
    requires |next'| == |next| && |prev'| == |prev| && t < |home| && t in touched
    requires forall x :: x in touched && 0 <= x < |home| ==> home[x] != InFreeList
    requires forall i :: 0 <= i < |next| && i !in touched ==> next'[i] == next[i]
    requires forall i :: 0 <= i < |prev| && i !in touched ==> prev'[i] == prev[i]
    ensures IsList(freeHead, freeList, next', prev') && Owned(freeList, InFreeList, home[t := h'])
  {
    OwnedFrame(freeList, InFreeList, home, t, h');
    IsListFrame(freeHead, freeList, next, prev, next', prev');
  }

  /** A slot recorded on list `h` is on it. */
  lemma ListedAt(freeHead: int, freeCount: U8, freeList: seq<nat>, table: seq<HashObj>,
                 buckets: seq<seq<nat>>, home: seq<Home>, next: seq<int>, prev: seq<int>, t: nat)
    requires Linked(freeHead, freeCount, freeList, table, buckets, home, next, prev) && t < |home|
    ensures home[t] == InFreeList ==> t in freeList
    ensures home[t].InBucket? ==> home[t].b < HASH_TABLE_SIZE && t in buckets[home[t].b]
    ensures home[t] != InFreeList ==> t !in freeList
    ensures forall b :: 0 <= b < HASH_TABLE_SIZE && home[t] != InBucket(b) ==> t !in buckets[b]
  {
    assert Listed(t, home[t], freeList, buckets);
    forall b | 0 <= b < HASH_TABLE_SIZE && home[t] != InBucket(b) ensures t !in buckets[b] {
      assert BucketOk(table[b], buckets[b], b, home, next, prev);
    }
  }

  /** What the structure says of bucket `b`: a duplicate-free list of slots headed by its entry,
      each slot recorded as living there. */
  lemma BucketView(freeHead: int, freeCount: U8, freeList: seq<nat>, table: seq<HashObj>,
                   buckets: seq<seq<nat>>, home: seq<Home>, next: seq<int>, prev: seq<int>, b: nat)
    requires Linked(freeHead, freeCount, freeList, table, buckets, home, next, prev) && b < HASH_TABLE_SIZE
    ensures IsList(table[b].listPtr, buckets[b], next, prev)
    ensures NoDup(buckets[b]) && Indexes(buckets[b], |home|)
    ensures forall k :: 0 <= k < |buckets[b]| ==> home[buckets[b][k]] == InBucket(b)
  {
    assert BucketOk(table[b], buckets[b], b, home, next, prev);
  }

  /** `free_timer_obj`'s splice: a detached slot pushed on the head of the free list. */
  lemma PushFree(freeHead: int, freeCount: U8, freeList: seq<nat>, table: seq<HashObj>,
                 buckets: seq<seq<nat>>, home: seq<Home>, next: seq<int>, prev: seq<int>,
                 t: nat, next': seq<int>, prev': seq<int>)
    requires Linked(freeHead, freeCount, freeList, table, buckets, home, next, prev)
    requires t < |home| && home[t] == Detached
    requires next' == next[t := freeHead]
    requires prev' == if freeHead == NIL then prev[t := NIL] else prev[t := NIL][freeHead := t]
    ensures Linked(t, Wrap8(freeCount + 1), [t] + freeList, table, buckets, home[t := InFreeList], next', prev')
  {
    ListedAt(freeHead, freeCount, freeList, table, buckets, home, next, prev, t);
    PushHead(freeList, t, next, prev, next', prev');
    Wrap8Step(freeCount, |freeList|);
    var home' := home[t := InFreeList];
    if freeHead != NIL { assert home[freeList[0]] == InFreeList; }
    BucketsKept(table, buckets, home, next, prev, HASH_TABLE_SIZE, t, InFreeList, {t, freeHead}, next', prev');
    DetachedKept(home, next, prev, t, InFreeList, {t, freeHead}, next', prev');
    forall i | 0 <= i < |home'| ensures Listed(i, home'[i], [t] + freeList, buckets) {
      assert Listed(i, home[i], freeList, buckets);
    }
  }

  /** The structure `RTOSTmrInit` builds: every slot free, in index order, and every bucket empty. */
  lemma InitialLinked(freeHead: int, freeCount: U8, freeList: seq<nat>, table: seq<HashObj>,
                      buckets: seq<seq<nat>>, home: seq<Home>, next: seq<int>, prev: seq<int>, n: nat)
    requires IsList(freeHead, freeList, next, prev) && |next| == n && |prev| == n
    requires |freeList| == n && forall k :: 0 <= k < n ==> freeList[k] == k
    requires freeCount == Wrap8(n) && home == seq(n, _ => InFreeList)
    requires table == seq(HASH_TABLE_SIZE, _ => HashObj(0, NIL)) && buckets == seq(HASH_TABLE_SIZE, _ => [])
    ensures Linked(freeHead, freeCount, freeList, table, buckets, home, next, prev)
  {
    assert Owned(freeList, InFreeList, home);
    forall i | 0 <= i < |home| ensures Listed(i, home[i], freeList, buckets) {
      assert freeList[i] == i;
    }
  }

  /** The head of a nonempty free list and its successor. */
  lemma FreeHead(freeHead: int, freeCount: U8, freeList: seq<nat>, table: seq<HashObj>,
                 buckets: seq<seq<nat>>, home: seq<Home>, next: seq<int>, prev: seq<int>)
    requires Linked(freeHead, freeCount, freeList, table, buckets, home, next, prev) && freeHead != NIL
    ensures freeList != [] && freeHead == freeList[0] && 0 <= freeHead < |next|
    ensures next[freeHead] == (if |freeList| > 1 then freeList[1] else NIL)
    ensures next[freeHead] != NIL ==> 0 <= next[freeHead] < |prev|
  {
    LinksAt(freeHead, freeList, next, prev, 0);
    if |freeList| > 1 { LinksAt(freeHead, freeList, next, prev, 1); }
  }

  /** `alloc_timer_obj`'s splice: the head of a nonempty free list taken off and detached. */
  lemma PopFree(freeHead: int, freeCount: U8, freeList: seq<nat>, table: seq<HashObj>,
                buckets: seq<seq<nat>>, home: seq<Home>, next: seq<int>, prev: seq<int>,
                next': seq<int>, prev': seq<int>)
    requires Linked(freeHead, freeCount, freeList, table, buckets, home, next, prev)
    requires freeCount != 0 && 0 <= freeHead < |next| && 0 <= freeHead < |prev|
    requires next[freeHead] == NIL || 0 <= next[freeHead] < |prev|
    requires next' == next[freeHead := NIL]
    requires prev' == (if next[freeHead] == NIL then prev else prev[next[freeHead] := NIL])[freeHead := NIL]
    ensures Linked(next[freeHead], freeCount - 1, freeList[1..], table, buckets,
                   home[freeHead := Detached], next', prev')
  {
    FreeHead(freeHead, freeCount, freeList, table, buckets, home, next, prev);
    var t, nh := freeHead, next[freeHead];
    Unlink(freeList, 0, nh, next, prev, next', prev');
    NoDupRemove(freeList, 0);
    assert freeList[..0] + freeList[1..] == freeList[1..];
    Wrap8Step(freeCount, |freeList|);
    var home' := home[t := Detached];
    forall x | x in {t, nh} && 0 <= x < |home| ensures home[x] == InFreeList {
      if x == nh { assert home[freeList[1]] == InFreeList; }
    }
    BucketsKept(table, buckets, home, next, prev, HASH_TABLE_SIZE, t, Detached, {t, nh}, next', prev');
    DetachedKept(home, next, prev, t, Detached, {t, nh}, next', prev');
    forall i | 0 <= i < |home'| ensures Listed(i, home'[i], freeList[1..], buckets) {
      assert Listed(i, home[i], freeList, buckets);
    }
  }

  /** `alloc_timer_obj` followed by `free_timer_obj` on the object it returned gives back the
      free list it started from: the same head, count, list, homes and links. */
  lemma AllocFreeRestores(freeHead: int, freeCount: U8, freeList: seq<nat>, table: seq<HashObj>,
                          buckets: seq<seq<nat>>, home: seq<Home>, next: seq<int>, prev: seq<int>)
    requires Linked(freeHead, freeCount, freeList, table, buckets, home, next, prev)
    requires freeCount != 0 && 0 <= freeHead < |next| && 0 <= freeHead < |prev|
    requires next[freeHead] == NIL || 0 <= next[freeHead] < |prev|
    ensures var t, nh := freeHead, next[freeHead];
      var next1 := next[t := NIL];
      var prev1 := (if nh == NIL then prev else prev[nh := NIL])[t := NIL];
      var next2 := next1[t := nh];
      var prev2 := if nh == NIL then prev1[t := NIL] else prev1[t := NIL][nh := t];
      && Wrap8((freeCount - 1) + 1) == freeCount
      && [t] + freeList[1..] == freeList
      && home[t := Detached][t := InFreeList] == home
      && next2 == next && prev2 == prev
  {
    FreeHead(freeHead, freeCount, freeList, table, buckets, home, next, prev);
    LinksAt(freeHead, freeList, next, prev, 0);
    if |freeList| > 1 { LinksAt(freeHead, freeList, next, prev, 1); }
    assert home[freeHead] == InFreeList;
  }

  /** `insert_hash_entry`'s splice: a detached slot pushed on the head of bucket `b`,
      whose count goes up by one. */
  lemma PushBucket(freeHead: int, freeCount: U8, freeList: seq<nat>, table: seq<HashObj>,
                   buckets: seq<seq<nat>>, home: seq<Home>, next: seq<int>, prev: seq<int>,
                   t: nat, b: nat, next': seq<int>, prev': seq<int>)
    requires Linked(freeHead, freeCount, freeList, table, buckets, home, next, prev)
    requires t < |home| && home[t] == Detached && b < HASH_TABLE_SIZE
    requires var h := table[b].listPtr;
      next' == next[t := h] && prev' == (if h == NIL then prev else prev[h := t])[t := NIL]
    ensures Linked(freeHead, freeCount, freeList,
                   table[b := HashObj(Wrap8(table[b].timerCount + 1), t)],
                   buckets[b := [t] + buckets[b]], home[t := InBucket(b)], next', prev')
  {
    var h := table[b].listPtr;
    var s := buckets[b];
    assert BucketOk(table[b], s, b, home, next, prev);
    ListedAt(freeHead, freeCount, freeList, table, buckets, home, next, prev, t);
    PushHead(s, t, next, prev, next', prev');
    Wrap8Step(table[b].timerCount, |s|);
    var home' := home[t := InBucket(b)];
    var table' := table[b := HashObj(Wrap8(table[b].timerCount + 1), t)];
    var buckets' := buckets[b := [t] + s];
    assert NoDup([t] + s);
    assert BucketOk(table'[b], buckets'[b], b, home', next', prev');
    if h != NIL { assert home[s[0]] == InBucket(b); }
    BucketsKept(table, buckets, home, next, prev, b, t, InBucket(b), {t, h}, next', prev');
    FreeKept(freeHead, freeList, home, next, prev, t, InBucket(b), {t, h}, next', prev');
    DetachedKept(home, next, prev, t, InBucket(b), {t, h}, next', prev');
    ReplaceBucket(table, buckets, home', next', prev', b, table', buckets');
    forall i | 0 <= i < |home'| ensures Listed(i, home'[i], freeList, buckets') {
      assert Listed(i, home[i], freeList, buckets);
    }
  }

  /** The neighbours of a slot recorded in bucket `b`. */
  lemma BucketEntry(freeHead: int, freeCount: U8, freeList: seq<nat>, table: seq<HashObj>,
                    buckets: seq<seq<nat>>, home: seq<Home>, next: seq<int>, prev: seq<int>, t: nat, b: nat)
    requires Linked(freeHead, freeCount, freeList, table, buckets, home, next, prev)
    requires t < |home| && b < HASH_TABLE_SIZE && home[t] == InBucket(b)
    ensures t in buckets[b] && t < |next| && t < |prev|
    ensures prev[t] == NIL || 0 <= prev[t] < |next|
    ensures next[t] == NIL || 0 <= next[t] < |prev|
  {
    assert BucketOk(table[b], buckets[b], b, home, next, prev);
    ListedAt(freeHead, freeCount, freeList, table, buckets, home, next, prev, t);
    var p :| 0 <= p < |buckets[b]| && buckets[b][p] == t;
    LinksAt(table[b].listPtr, buckets[b], next, prev, p);
    if p + 1 < |buckets[b]| { LinksAt(table[b].listPtr, buckets[b], next, prev, p + 1); }
    if p > 0 { LinksAt(table[b].listPtr, buckets[b], next, prev, p - 1); }
  }

  /** `remove_hash_entry`'s splice: slot `t` of bucket `b` unlinked through its own links;
      the bucket head moves on when `t` was first and the count goes down by one. */
  lemma UnlinkBucket(freeHead: int, freeCount: U8, freeList: seq<nat>, table: seq<HashObj>,
                     buckets: seq<seq<nat>>, home: seq<Home>, next: seq<int>, prev: seq<int>,
                     t: nat, b: nat, next': seq<int>, prev': seq<int>)
    requires Linked(freeHead, freeCount, freeList, table, buckets, home, next, prev)
    requires t < |home| && t < |next| && t < |prev| && b < HASH_TABLE_SIZE && home[t] == InBucket(b)
    requires prev[t] == NIL || 0 <= prev[t] < |next|
    requires next[t] == NIL || 0 <= next[t] < |prev|
    requires next' == (if prev[t] == NIL then next else next[prev[t] := next[t]])[t := NIL]
    requires prev' == (if next[t] == NIL then prev else prev[next[t] := prev[t]])[t := NIL]
    ensures Linked(freeHead, freeCount, freeList,
                   table[b := HashObj(Wrap8(table[b].timerCount - 1),
                                      if prev[t] == NIL then next[t] else table[b].listPtr)],
                   buckets[b := Without(buckets[b], t)], home[t := Detached], next', prev')
  {
    ListedAt(freeHead, freeCount, freeList, table, buckets, home, next, prev, t);
    var p :| 0 <= p < |buckets[b]| && buckets[b][p] == t;
    assert BucketOk(table[b], buckets[b], b, home, next, prev);
    NoDupRemove(buckets[b], p);
    WithoutAt(buckets[b], p);
    UnlinkAt(freeHead, freeCount, freeList, table, buckets, home, next, prev, b, p, next', prev');
  }

  /** The neighbours of the slot at position `p` of bucket `b` live in that bucket too. */
  lemma NeighboursInBucket(table: seq<HashObj>, buckets: seq<seq<nat>>, home: seq<Home>,
                           next: seq<int>, prev: seq<int>, b: nat, p: nat)
    requires |table| == HASH_TABLE_SIZE && |buckets| == HASH_TABLE_SIZE && b < HASH_TABLE_SIZE
    requires BucketOk(table[b], buckets[b], b, home, next, prev) && p < |buckets[b]|
    ensures var t := buckets[b][p];
      t < |next| && t < |prev| &&
      forall x :: x in {t, prev[t], next[t]} && 0 <= x < |home| ==> home[x] == InBucket(b)
  {
    var s := buckets[b];
    LinksAt(table[b].listPtr, s, next, prev, p);
    if p > 0 { LinksAt(table[b].listPtr, s, next, prev, p - 1); }
    if p + 1 < |s| { LinksAt(table[b].listPtr, s, next, prev, p + 1); }
  }

  /** Bucket `b` itself after the slot at position `p` is unlinked. */
  lemma UnlinkOwnBucket(e: HashObj, s: seq<nat>, b: nat, home: seq<Home>, next: seq<int>, prev: seq<int>,
                        p: nat, next': seq<int>, prev': seq<int>)
    requires BucketOk(e, s, b, home, next, prev) && p < |s|
    requires var t := s[p];
      && t < |next| && t < |prev|
      && (prev[t] == NIL || 0 <= prev[t] < |next|)
      && (next[t] == NIL || 0 <= next[t] < |prev|)
      && next' == (if prev[t] == NIL then next else next[prev[t] := next[t]])[t := NIL]
      && prev' == (if next[t] == NIL then prev else prev[next[t] := prev[t]])[t := NIL]
    ensures var t := s[p];
      BucketOk(HashObj(Wrap8(e.timerCount - 1), if prev[t] == NIL then next[t] else e.listPtr),
               s[..p] + s[p + 1..], b, home[t := Detached], next', prev')
  {
    var t := s[p];
    LinksAt(e.listPtr, s, next, prev, p);
    if p + 1 < |s| { LinksAt(e.listPtr, s, next, prev, p + 1); }
    if p > 0 { LinksAt(e.listPtr, s, next, prev, p - 1); }
    Unlink(s, p, if prev[t] == NIL then next[t] else e.listPtr, next, prev, next', prev');
    Wrap8Step(e.timerCount, |s|);
    OwnedRemove(s, p, InBucket(b), home, Detached);
  }

  /** The same splice, for the slot standing at position `p` of bucket `b`. */
  lemma UnlinkAt(freeHead: int, freeCount: U8, freeList: seq<nat>, table: seq<HashObj>,
                 buckets: seq<seq<nat>>, home: seq<Home>, next: seq<int>, prev: seq<int>,
                 b: nat, p: nat, next': seq<int>, prev': seq<int>)
    requires Linked(freeHead, freeCount, freeList, table, buckets, home, next, prev)
    requires b < HASH_TABLE_SIZE && p < |buckets[b]|
    requires var t := buckets[b][p];
      && t < |next| && t < |prev|
      && (prev[t] == NIL || 0 <= prev[t] < |next|)
      && (next[t] == NIL || 0 <= next[t] < |prev|)
      && next' == (if prev[t] == NIL then next else next[prev[t] := next[t]])[t := NIL]
      && prev' == (if next[t] == NIL then prev else prev[next[t] := prev[t]])[t := NIL]
    ensures var s, t := buckets[b], buckets[b][p];
      Linked(freeHead, freeCount, freeList,
             table[b := HashObj(Wrap8(table[b].timerCount - 1),
                                if prev[t] == NIL then next[t] else table[b].listPtr)],
             buckets[b := s[..p] + s[p + 1..]], home[t := Detached], next', prev')
  {
    var s := buckets[b];
    var t := s[p];
    var pt, nt := prev[t], next[t];
    assert BucketOk(table[b], s, b, home, next, prev);
    var home' := home[t := Detached];
    var table' := table[b := HashObj(Wrap8(table[b].timerCount - 1), if pt == NIL then nt else table[b].listPtr)];
    var buckets' := buckets[b := s[..p] + s[p + 1..]];
    NeighboursInBucket(table, buckets, home, next, prev, b, p);
    UnlinkOwnBucket(table[b], s, b, home, next, prev, p, next', prev');
    assert BucketOk(table'[b], buckets'[b], b, home', next', prev');
    BucketsKept(table, buckets, home, next, prev, b, t, Detached, {t, pt, nt}, next', prev');
    FreeKept(freeHead, freeList, home, next, prev, t, Detached, {t, pt, nt}, next', prev');
    DetachedKept(home, next, prev, t, Detached, {t, pt, nt}, next', prev');
    ListedAfterRemove(freeList, buckets, home, b, p, buckets', home');
    ReplaceBucket(table, buckets, home', next', prev', b, table', buckets');
  }

  /** Bucket `b` replaced by a sound bucket, next to buckets that are all sound, gives sound buckets. */
  lemma ReplaceBucket(table: seq<HashObj>, buckets: seq<seq<nat>>, home: seq<Home>, next: seq<int>, prev: seq<int>,
                      b: nat, table': seq<HashObj>, buckets': seq<seq<nat>>)
    requires |table| == HASH_TABLE_SIZE && |buckets| == HASH_TABLE_SIZE && b < HASH_TABLE_SIZE
    requires |table'| == HASH_TABLE_SIZE && |buckets'| == HASH_TABLE_SIZE
    requires table' == table[b := table'[b]] && buckets' == buckets[b := buckets'[b]]
    requires forall c :: 0 <= c < HASH_TABLE_SIZE && c != b ==> BucketOk(table[c], buckets[c], c, home, next, prev)
    requires BucketOk(table'[b], buckets'[b], b, home, next, prev)
    ensures forall c :: 0 <= c < HASH_TABLE_SIZE ==> BucketOk(table'[c], buckets'[c], c, home, next, prev)
  {
  }

  /** Every slot but the one taken out of bucket `b` is still on the list its home names. */
  lemma ListedAfterRemove(freeList: seq<nat>, buckets: seq<seq<nat>>, home: seq<Home>, b: nat, p: nat,
                          buckets': seq<seq<nat>>, home': seq<Home>)
    requires b < |buckets| && p < |buckets[b]| && NoDup(buckets[b]) && buckets[b][p] < |home|
    requires buckets' == buckets[b := buckets[b][..p] + buckets[b][p + 1..]]
    requires home' == home[buckets[b][p] := Detached]
    requires forall i :: 0 <= i < |home| ==> Listed(i, home[i], freeList, buckets)
    ensures forall i :: 0 <= i < |home'| ==> Listed(i, home'[i], freeList, buckets')
  {
    NoDupRemove(buckets[b], p);
    forall i | 0 <= i < |home'| ensures Listed(i, home'[i], freeList, buckets') {
      assert Listed(i, home[i], freeList, buckets);
    }
  }
}
