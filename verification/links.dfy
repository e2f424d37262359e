/** Intrusive doubly-linked lists over the timer arena: the free list and every
    hash-table bucket are sequences of slot indices threaded through `next`/`prev`. */
module Links {
  import opened TimerTypes

  ghost predicate NoDup(s: seq<nat>)
  {
    forall i, j :: 0 <= i < j < |s| ==> s[i] != s[j]
  }

  /** Every entry of `xs` is a slot of an arena of `n` slots. */
  ghost predicate Indexes(xs: seq<nat>, n: nat)
  {
    forall k :: 0 <= k < |xs| ==> xs[k] < n
  }

  /** `s` is the list that starts at `head` and follows `next`, with `prev` the reverse links;
      both ends are NIL. */
  ghost predicate IsList(head: int, s: seq<nat>, next: seq<int>, prev: seq<int>)
  {
    && head == (if s == [] then NIL else s[0])
    && (forall k :: 0 <= k < |s| ==> s[k] < |next| && s[k] < |prev|)
    && (forall k :: 0 <= k < |s| ==> next[s[k]] == if k + 1 < |s| then s[k + 1] else NIL)
    && (forall k :: 0 <= k < |s| ==> prev[s[k]] == if k == 0 then NIL else s[k - 1])
  }

  /** `s` with the first occurrence of `x` taken out. */
  function Without(s: seq<nat>, x: nat): (r: seq<nat>)
    ensures |s| - 1 <= |r| <= |s|
  {
    if s == [] then []
    else
      assert s == [s[0]] + s[1..];
      if s[0] == x then s[1..]
      else [s[0]] + Without(s[1..], x)
  }

  /** `Without` takes out exactly one copy of `x` when there is one, and nothing else. */
  lemma {:induction false} WithoutMultiset(s: seq<nat>, x: nat)
    ensures multiset(Without(s, x)) == multiset(s) - multiset{x}
  {
    if s != [] {
      assert s == [s[0]] + s[1..];
      if s[0] != x {
        WithoutMultiset(s[1..], x);
      }
    }
  }

  /** Every entry other than `x` is in `Without(s, x)` exactly when it is in `s`. */
  lemma WithoutOthers(s: seq<nat>, x: nat, y: nat)
    requires y != x
    ensures y in Without(s, x) <==> y in s
  {
    WithoutMultiset(s, x);
    assert multiset(Without(s, x))[y] == multiset(s)[y];
  }

  /** In a duplicate-free list, the entry at position `k` is not among entries taken from before it. */
  lemma PrefixNotIn(pre: seq<nat>, xs: seq<nat>, k: nat)
    requires NoDup(xs) && k < |xs| && forall y :: y in pre ==> y in xs[..k]
    ensures xs[k] !in pre
    ensures forall y :: y in pre || y == xs[k] ==> y in xs[..k + 1]
  {
    assert xs[k] !in xs[..k] by {
      forall i | 0 <= i < k ensures xs[..k][i] != xs[k] { assert xs[..k][i] == xs[i]; }
    }
    forall y | y in pre || y == xs[k] ensures y in xs[..k + 1] {
      if y == xs[k] { assert xs[..k + 1][k] == y; }
      else { var i :| 0 <= i < k && xs[..k][i] == y; assert xs[..k + 1][i] == y; }
    }
  }

  /** Taking `x` out of a list where it stands at position `p` keeps everything else in order. */
  lemma {:induction false} WithoutAt(s: seq<nat>, p: nat)
    requires p < |s| && s[p] !in s[..p]
    ensures Without(s, s[p]) == s[..p] + s[p + 1..]
  {
    if p > 0 {
      assert s[0] != s[p] by { assert s[0] in s[..p]; }
      assert s[1..][p - 1] == s[p];
      assert s[1..][..p - 1] == s[1..p];
      assert s[p] !in s[1..][..p - 1] by {
        forall y | y in s[1..p] ensures y in s[..p] { }
      }
      WithoutAt(s[1..], p - 1);
      assert s[..p] == [s[0]] + s[1..p];
      assert s[1..][p..] == s[p + 1..];
    }
  }

  /** Taking out an element that is not in the prefix only touches the suffix. */
  lemma {:induction false} WithoutAppend(pre: seq<nat>, rest: seq<nat>, x: nat)
    requires x !in pre
    ensures Without(pre + rest, x) == pre + Without(rest, x)
  {
    if pre != [] {
      assert (pre + rest)[0] == pre[0];
      assert (pre + rest)[1..] == pre[1..] + rest;
      assert x !in pre[1..] by { forall y | y in pre[1..] ensures y in pre { } }
      WithoutAppend(pre[1..], rest, x);
      assert pre == [pre[0]] + pre[1..];
    } else {
      assert pre + rest == rest;
    }
  }

  /** The links of the element at position `k` of a list. */
  lemma LinksAt(head: int, s: seq<nat>, next: seq<int>, prev: seq<int>, k: nat)
    requires IsList(head, s, next, prev) && k < |s|
    ensures s[k] < |next| && s[k] < |prev|
    ensures next[s[k]] == if k + 1 < |s| then s[k + 1] else NIL
    ensures prev[s[k]] == if k == 0 then NIL else s[k - 1]
  {
  }

  /** Taking out the element at position `p` of a duplicate-free list leaves a duplicate-free
      list holding everything else. */
  lemma NoDupRemove(s: seq<nat>, p: nat)
    requires NoDup(s) && p < |s|
    ensures NoDup(s[..p] + s[p + 1..]) && s[p] !in s[..p] + s[p + 1..] && s[p] !in s[..p]
    ensures forall y :: y in s && y != s[p] ==> y in s[..p] + s[p + 1..]
  {
    var s' := s[..p] + s[p + 1..];
    assert forall i :: 0 <= i < |s'| ==> s'[i] == if i < p then s[i] else s[i + 1];
    forall y | y in s && y != s[p] ensures y in s' {
      var i :| 0 <= i < |s| && s[i] == y;
      if i < p { assert s'[i] == y; } else { assert s'[i - 1] == y; }
    }
  }

  /** A list stays well linked when the links of its own elements are untouched. */
  lemma IsListFrame(head: int, s: seq<nat>, next: seq<int>, prev: seq<int>, next': seq<int>, prev': seq<int>)
    requires IsList(head, s, next, prev)
    requires |next'| == |next| && |prev'| == |prev|
    requires forall k :: 0 <= k < |s| ==> next'[s[k]] == next[s[k]] && prev'[s[k]] == prev[s[k]]
    ensures IsList(head, s, next', prev')
  {
  }

  /** Pushing `x` on the head of a list: `x` links to the old head, the old head links back to `x`. */
  lemma PushHead(s: seq<nat>, x: nat, next: seq<int>, prev: seq<int>, next': seq<int>, prev': seq<int>)
    requires IsList(if s == [] then NIL else s[0], s, next, prev)
    requires x < |next| == |next'| && x < |prev| == |prev'|
    requires next'[x] == (if s == [] then NIL else s[0]) && prev'[x] == NIL
    requires s != [] ==> prev'[s[0]] == x
    requires forall k :: 0 <= k < |s| ==> next'[s[k]] == next[s[k]]
    requires forall k :: 1 <= k < |s| ==> prev'[s[k]] == prev[s[k]]
    ensures IsList(x, [x] + s, next', prev')
  {
    var s' := [x] + s;
    forall k | 0 <= k < |s'|
      ensures s'[k] < |next'| && s'[k] < |prev'|
      ensures next'[s'[k]] == if k + 1 < |s'| then s'[k + 1] else NIL
      ensures prev'[s'[k]] == if k == 0 then NIL else s'[k - 1]
    {
      if k > 0 {
        assert s'[k] == s[k - 1];
        LinksAt(s[0], s, next, prev, k - 1);
        assert next'[s[k - 1]] == next[s[k - 1]] == if k < |s| then s[k] else NIL;
        if k + 1 < |s'| { assert s'[k + 1] == s[k]; }
        if k > 1 {
          assert prev'[s[k - 1]] == prev[s[k - 1]] == s[k - 2] == s'[k - 1];
        }
        assert next'[s'[k]] == if k + 1 < |s'| then s'[k + 1] else NIL;
      } else if s != [] {
        assert s'[1] == s[0];
      }
    }
    assert forall k :: 0 <= k < |s'| ==> next'[s'[k]] == if k + 1 < |s'| then s'[k + 1] else NIL;
    assert IsList(x, s', next', prev');
  }

  /** Appending `x` at the tail of a list: the old tail links to `x`, `x` links back to it. */
  lemma PushTail(head: int, s: seq<nat>, x: nat, next: seq<int>, prev: seq<int>, next': seq<int>, prev': seq<int>)
    requires IsList(head, s, next, prev)
    requires x < |next| == |next'| && x < |prev| == |prev'|
    requires next'[x] == NIL && prev'[x] == (if s == [] then NIL else s[|s| - 1])
    requires s != [] ==> next'[s[|s| - 1]] == x
    requires forall k :: 0 <= k < |s| - 1 ==> next'[s[k]] == next[s[k]]
    requires forall k :: 0 <= k < |s| ==> prev'[s[k]] == prev[s[k]]
    ensures IsList(if s == [] then x else head, s + [x], next', prev')
  {
    var s' := s + [x];
    forall k | 0 <= k < |s'|
      ensures s'[k] < |next'| && s'[k] < |prev'|
      ensures next'[s'[k]] == if k + 1 < |s'| then s'[k + 1] else NIL
      ensures prev'[s'[k]] == if k == 0 then NIL else s'[k - 1]
    {
      if k < |s| {
        assert s'[k] == s[k];
        LinksAt(head, s, next, prev, k);
        if k + 1 < |s| { assert s'[k + 1] == s[k + 1]; }
        if k > 0 { assert s'[k - 1] == s[k - 1]; }
      }
    }
    assert forall k :: 0 <= k < |s'| ==> next'[s'[k]] == if k + 1 < |s'| then s'[k + 1] else NIL;
    assert IsList(if s == [] then x else head, s', next', prev');
  }

  /** Unlinking the element at position `p`: its neighbours are joined. */
  lemma Unlink(s: seq<nat>, p: nat, head': int, next: seq<int>, prev: seq<int>, next': seq<int>, prev': seq<int>)
    requires IsList(if s == [] then NIL else s[0], s, next, prev) && p < |s|
    requires |next'| == |next| && |prev'| == |prev|
    requires head' == (if p == 0 then (if |s| > 1 then s[1] else NIL) else s[0])
    requires p > 0 ==> next'[s[p - 1]] == (if p + 1 < |s| then s[p + 1] else NIL)
    requires p + 1 < |s| ==> prev'[s[p + 1]] == (if p == 0 then NIL else s[p - 1])
    requires forall k :: 0 <= k < |s| && k != p - 1 && k != p ==> next'[s[k]] == next[s[k]]
    requires forall k :: 0 <= k < |s| && k != p + 1 && k != p ==> prev'[s[k]] == prev[s[k]]
    ensures IsList(head', s[..p] + s[p + 1..], next', prev')
  {
    var s' := s[..p] + s[p + 1..];
    assert |s'| == |s| - 1;
    forall k | 0 <= k < |s'|
      ensures s'[k] < |next'| && s'[k] < |prev'|
      ensures next'[s'[k]] == if k + 1 < |s'| then s'[k + 1] else NIL
      ensures prev'[s'[k]] == if k == 0 then NIL else s'[k - 1]
    {
      LinksAt(s[0], s, next, prev, k);
      LinksAt(s[0], s, next, prev, k + 1);
      if k < p {
        assert s'[k] == s[k];
        assert prev'[s[k]] == prev[s[k]] == if k == 0 then NIL else s[k - 1];
        if k > 0 { assert s'[k - 1] == s[k - 1]; }
        if k < p - 1 {
          assert next'[s[k]] == next[s[k]] == s[k + 1] == s'[k + 1];
        } else {
          assert k == p - 1;
          if k + 1 < |s'| { assert s'[k + 1] == s[k + 2]; }
        }
      } else {
        assert s'[k] == s[k + 1];
        assert next'[s[k + 1]] == next[s[k + 1]] == if k + 2 < |s| then s[k + 2] else NIL;
        if k + 1 < |s'| { assert s'[k + 1] == s[k + 2]; }
        if k > p {
          assert prev'[s[k + 1]] == prev[s[k + 1]] == s[k] == s'[k - 1];
        } else if k > 0 {
          assert s'[k - 1] == s[k - 1];
        }
      }
    }
    if s' != [] {
      if p == 0 { assert s'[0] == s[1]; } else { assert s'[0] == s[0]; }
    }
    assert forall k :: 0 <= k < |s'| ==> next'[s'[k]] == if k + 1 < |s'| then s'[k + 1] else NIL;
    assert forall k :: 0 <= k < |s'| ==> prev'[s'[k]] == if k == 0 then NIL else s'[k - 1];
    assert IsList(head', s', next', prev');
  }
}
