/** `ThrottledInterval` of src/common.rs: an inner timer whose ticks are let through only
    when the minimal interval since the last accepted one is over. */
module Throttle {

  datatype Poll = Ready(instant: int) | Pending

  class ThrottledInterval {
    var nextTick: int
    const minInterval: nat

    /** `period` in nanoseconds; nine tenths of it must pass between two ticks. */
    constructor (period: nat, now: int)
      ensures nextTick == now && minInterval == period * 9 / 10
    {
      nextTick := now;
      minInterval := period * 9 / 10;
    }

    method PollTick(inner: Poll, now: int) returns (r: Poll)
      modifies this`nextTick
      ensures r == if inner.Ready? && old(nextTick) <= now then inner else Pending
      ensures nextTick == if r.Ready? then now + minInterval else old(nextTick)
    {
      match inner
      case Ready(_) =>
        if nextTick <= now {
          nextTick := now + minInterval;
          r := inner;
        } else {
          r := Pending;
        }
      case Pending =>
        r := Pending;
    }

    /** Polls at the instants `ts` at which the inner timer is ready. */
    method Drive(ts: seq<int>) returns (accepted: seq<nat>)
      modifies this`nextTick
      ensures accepted == Greedy(ts, 0, old(nextTick), minInterval)
    {
      accepted := [];
      ghost var start := nextTick;
      for i := 0 to |ts|
        invariant Greedy(ts, 0, start, minInterval) == accepted + Greedy(ts, i, nextTick, minInterval)
      {
        var r := PollTick(Ready(ts[i]), ts[i]);
        if r.Ready? {
          accepted := accepted + [i];
        }
      }
    }
  }

  /** The positions from `i` on that the throttle accepts. */
  function Greedy(ts: seq<int>, i: nat, next: int, gap: nat): (g: seq<nat>)
    requires i <= |ts|
    ensures forall k :: 0 <= k < |g| ==> i <= g[k] < |ts|
    decreases |ts| - i
  {
    if i == |ts| then []
    else if next <= ts[i] then [i] + Greedy(ts, i + 1, ts[i] + gap, gap)
    else Greedy(ts, i + 1, next, gap)
  }

  ghost predicate Nondecreasing(ts: seq<int>) {
    forall i, j :: 0 <= i < j < |ts| ==> ts[i] <= ts[j]
  }

  /** Positions in order, their instants at least `gap` apart and none before `next`. */
  ghost predicate Spaced(ts: seq<int>, sel: seq<nat>, next: int, gap: nat) {
    && (forall k :: 0 <= k < |sel| ==> sel[k] < |ts| && next <= ts[sel[k]])
    && (forall j, k :: 0 <= j < k < |sel| ==> sel[j] < sel[k] && ts[sel[j]] + gap <= ts[sel[k]])
  }

  lemma {:induction false} GreedySpaced(ts: seq<int>, i: nat, next: int, gap: nat)
    requires i <= |ts|
    ensures Spaced(ts, Greedy(ts, i, next, gap), next, gap)
    decreases |ts| - i
  {
    if i < |ts| {
      if next <= ts[i] {
        GreedySpaced(ts, i + 1, ts[i] + gap, gap);
      } else {
        GreedySpaced(ts, i + 1, next, gap);
      }
    }
  }

  /** `g` has at least as many ticks as `sel`, and each of them no later. */
  ghost predicate Ahead(ts: seq<int>, g: seq<nat>, sel: seq<nat>) {
    && |sel| <= |g|
    && forall k :: 0 <= k < |sel| ==> g[k] < |ts| && sel[k] < |ts| && ts[g[k]] <= ts[sel[k]]
  }

  ghost predicate FarApart(ts: seq<int>, i: nat, gap: nat) {
    forall j, k :: i <= j < k < |ts| ==> ts[j] + gap <= ts[k]
  }

  /** Greedy stays ahead: of every other spaced selection, each tick comes no earlier than the
      accepted tick of the same rank, so no selection has more of them. */
  lemma {:induction false} StaysAhead(ts: seq<int>, i: nat, next: int, gap: nat, sel: seq<nat>)
    requires i <= |ts| && Nondecreasing(ts) && Spaced(ts, sel, next, gap)
    requires forall k :: 0 <= k < |sel| ==> i <= sel[k]
    ensures Ahead(ts, Greedy(ts, i, next, gap), sel)
    decreases |ts| - i
  {
    if sel != [] {
      SomeLeft(ts, i, next, gap, sel);
      if next <= ts[i] {
        SpacedTail(ts, i, next, gap, sel);
        StaysAhead(ts, i + 1, ts[i] + gap, gap, sel[1..]);
        AheadCons(ts, i, Greedy(ts, i + 1, ts[i] + gap, gap), sel);
      } else {
        StaysAhead(ts, i + 1, next, gap, sel);
      }
    }
  }

  lemma {:induction false} SomeLeft(ts: seq<int>, i: nat, next: int, gap: nat, sel: seq<nat>)
    requires sel != [] && Spaced(ts, sel, next, gap)
    requires forall k :: 0 <= k < |sel| ==> i <= sel[k]
    ensures i < |ts|
  {
    assert i <= sel[0] < |ts|;
  }

  lemma {:induction false} SpacedTail(ts: seq<int>, i: nat, next: int, gap: nat, sel: seq<nat>)
    requires i < |ts| && Nondecreasing(ts) && Spaced(ts, sel, next, gap)
    requires sel != [] && forall k :: 0 <= k < |sel| ==> i <= sel[k]
    ensures ts[i] <= ts[sel[0]]
    ensures Spaced(ts, sel[1..], ts[i] + gap, gap)
    ensures forall k :: 0 <= k < |sel[1..]| ==> i + 1 <= sel[1..][k]
  {
  }

  lemma {:induction false} AheadCons(ts: seq<int>, i: nat, g: seq<nat>, sel: seq<nat>)
    requires sel != [] && i < |ts| && sel[0] < |ts| && ts[i] <= ts[sel[0]] && Ahead(ts, g, sel[1..])
    ensures Ahead(ts, [i] + g, sel)
  {
  }

  /** On ticks that are far enough apart already the throttle is the identity: the accepted
      positions are all positions. */
  lemma {:induction false} GreedyAll(ts: seq<int>, i: nat, next: int, gap: nat)
    requires i <= |ts| && (i < |ts| ==> next <= ts[i])
    requires FarApart(ts, i, gap)
    ensures var g := Greedy(ts, i, next, gap);
            |g| == |ts| - i && forall k :: 0 <= k < |g| ==> g[k] == i + k
    decreases |ts| - i
  {
    if i < |ts| {
      var rest := Greedy(ts, i + 1, ts[i] + gap, gap);
      GreedyAll(ts, i + 1, ts[i] + gap, gap);
      assert Greedy(ts, i, next, gap) == [i] + rest;
    }
  }

  /** The throttle is optimal. From its creation at `start`, over every sequence of ready
      instants of a clock that does not run backwards: accepted ticks are `gap` apart, and no
      selection with that gap is longer or gets its ticks earlier. */
  lemma {:induction false} ThrottleOptimal(ts: seq<int>, start: int, gap: nat, sel: seq<nat>)
    requires Nondecreasing(ts) && Spaced(ts, sel, start, gap)
    ensures Spaced(ts, Greedy(ts, 0, start, gap), start, gap)
    ensures Ahead(ts, Greedy(ts, 0, start, gap), sel)
  {
    GreedySpaced(ts, 0, start, gap);
    StaysAhead(ts, 0, start, gap, sel);
  }
}
