/**
 * `Array.prototype.filter` with a callback, and what it keeps: the elements
 * the callback accepts, in their original order.
 */
module Lists {

  /** `xs.filter(keep)`. */
  function Filter<T>(keep: T -> bool, xs: seq<T>): (kept: seq<T>)
    ensures |kept| <= |xs|
    ensures forall k | 0 <= k < |kept| :: keep(kept[k])
  {
    if xs == [] then []
    else (if keep(xs[0]) then [xs[0]] else []) + Filter(keep, xs[1..])
  }

  /** `xs.map(f)`. */
  function Map<T, U>(f: T -> U, xs: seq<T>): (ys: seq<U>)
    ensures |ys| == |xs| && forall k | 0 <= k < |xs| :: ys[k] == f(xs[k])
  {
    if xs == [] then [] else [f(xs[0])] + Map(f, xs[1..])
  }

  /** The positions, from `from` on, of the elements the callback accepts. */
  function Origins<T>(keep: T -> bool, xs: seq<T>, from: nat): seq<nat>
    requires from <= |xs|
    decreases |xs| - from
  {
    if from == |xs| then []
    else (if keep(xs[from]) then [from] else []) + Origins(keep, xs, from + 1)
  }

  /** Origins are accepted positions, from `from` on. */
  lemma {:induction false} OriginsAccepted<T>(keep: T -> bool, xs: seq<T>, from: nat)
    requires from <= |xs|
    ensures forall k | 0 <= k < |Origins(keep, xs, from)| ::
      from <= Origins(keep, xs, from)[k] < |xs| && keep(xs[Origins(keep, xs, from)[k]])
    decreases |xs| - from
  {
    if from < |xs| {
      OriginsAccepted(keep, xs, from + 1);
      var rest := Origins(keep, xs, from + 1);
      var o := Origins(keep, xs, from);
      if keep(xs[from]) {
        assert o == [from] + rest;
      } else {
        assert o == rest;
      }
    }
  }

  /** Origins strictly increase. */
  lemma {:induction false} OriginsIncrease<T>(keep: T -> bool, xs: seq<T>, from: nat)
    requires from <= |xs|
    ensures forall k, l | 0 <= k < l < |Origins(keep, xs, from)| ::
      Origins(keep, xs, from)[k] < Origins(keep, xs, from)[l]
    decreases |xs| - from
  {
    if from < |xs| {
      OriginsIncrease(keep, xs, from + 1);
      OriginsAccepted(keep, xs, from + 1);
      var rest := Origins(keep, xs, from + 1);
      var o := Origins(keep, xs, from);
      if keep(xs[from]) {
        assert o == [from] + rest;
        forall k, l | 0 <= k < l < |o| ensures o[k] < o[l] {
          assert o[l] == rest[l - 1];
          if k > 0 { assert o[k] == rest[k - 1]; }
        }
      } else {
        assert o == rest;
      }
    }
  }

  /** Every accepted position from `from` on is an origin. */
  lemma {:induction false} OriginsComplete<T>(keep: T -> bool, xs: seq<T>, from: nat)
    requires from <= |xs|
    ensures forall j | from <= j < |xs| && keep(xs[j]) :: j in Origins(keep, xs, from)
    decreases |xs| - from
  {
    if from < |xs| {
      OriginsComplete(keep, xs, from + 1);
    }
  }

  /** The k-th kept element is the element at the k-th origin. */
  lemma {:induction false} FilterPicksOrigins<T>(keep: T -> bool, xs: seq<T>, from: nat)
    requires from <= |xs|
    ensures |Origins(keep, xs, from)| == |Filter(keep, xs[from..])|
    ensures forall k | 0 <= k < |Origins(keep, xs, from)| ::
      Origins(keep, xs, from)[k] < |xs| && Filter(keep, xs[from..])[k] == xs[Origins(keep, xs, from)[k]]
    decreases |xs| - from
  {
    if from < |xs| {
      FilterPicksOrigins(keep, xs, from + 1);
      OriginsAccepted(keep, xs, from + 1);
      var tail := xs[from..];
      assert tail[0] == xs[from];
      assert tail[1..] == xs[from + 1..];
    }
  }

  /** Nothing is kept when the callback accepts no element. */
  lemma {:induction false} FilterNone<T>(keep: T -> bool, xs: seq<T>)
    requires forall k | 0 <= k < |xs| :: !keep(xs[k])
    ensures Filter(keep, xs) == []
  {
    if xs != [] {
      FilterNone(keep, xs[1..]);
    }
  }
}
