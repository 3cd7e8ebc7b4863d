/**
 * Round-robin dispatch as a function of the dispatch history: the jobs of a history `h`
 * (in scheduling order) that a cursor cycling over `t` workers sends to worker `q`.
 */
module RoundRobin {

  /** The jobs of `h`, in order, whose position `i` satisfies `i % t == q`. */
  function Dispatched<J>(h: seq<J>, t: nat, q: nat): (r: seq<J>)
    requires t > 0
    ensures |r| <= |h|
    decreases |h|
  {
    if h == [] then []
    else Dispatched(h[..|h| - 1], t, q) + (if (|h| - 1) % t == q then [h[|h| - 1]] else [])
  }

  /** Scheduling one more job adds it to the back of exactly one worker's share: the worker
      the cursor points at, `|h| % t`; every other share is unchanged. */
  lemma DispatchedAppend<J>(h: seq<J>, x: J, t: nat, q: nat)
    requires t > 0
    ensures Dispatched(h + [x], t, q) == Dispatched(h, t, q) + (if |h| % t == q then [x] else [])
  {
    assert (h + [x])[..|h|] == h;
  }

  /** Stepping a counter by one: how `n / t` and `n % t` move. */
  lemma DivModNext(n: nat, t: nat)
    requires t > 0
    ensures n % t == t - 1 ==> (n + 1) / t == n / t + 1 && (n + 1) % t == 0
    ensures n % t < t - 1 ==> (n + 1) / t == n / t && (n + 1) % t == n % t + 1
  {
    var a, b := n / t, n % t;
    assert n == a * t + b;
    if b == t - 1 {
      assert n + 1 == (a + 1) * t + 0;
      DivModUnique(n + 1, t, a + 1, 0);
    } else {
      assert n + 1 == a * t + (b + 1);
      DivModUnique(n + 1, t, a, b + 1);
    }
  }

  /** A number is its quotient times the divisor plus its remainder. */
  lemma DivModSplit(n: nat, t: nat)
    requires t > 0
    ensures n == n % t + (n / t) * t
  {
  }

  /** Quotient and remainder are determined by `n == a * t + b` with `0 <= b < t`. */
  lemma DivModUnique(n: nat, t: nat, a: int, b: int)
    requires t > 0 && 0 <= b < t && n == a * t + b
    ensures n / t == a && n % t == b
  {
    var a', b' := n / t, n % t;
    assert n == a' * t + b';
    if a' < a {
      MulMonotone(a' + 1, a, t);
    } else if a < a' {
      MulMonotone(a + 1, a', t);
    }
  }

  /** Multiplying by a non-negative factor preserves order. */
  lemma MulMonotone(x: int, y: int, t: nat)
    requires x <= y
    ensures x * t <= y * t
  {
    assert y * t - x * t == (y - x) * t;
  }

  /** Worker `q` receives `|h| / t` jobs, plus one when it is among the first `|h| % t`
      workers: round-robin dispatch spreads `|h|` jobs as evenly as possible. */
  lemma {:induction false} DispatchedLength<J>(h: seq<J>, t: nat, q: nat)
    requires q < t
    ensures |Dispatched(h, t, q)| == |h| / t + (if q < |h| % t then 1 else 0)
    decreases |h|
  {
    if h != [] {
      var n := |h| - 1;
      var h' := h[..n];
      assert h == h' + [h[n]];
      DispatchedLength(h', t, q);
      DispatchedAppend(h', h[n], t, q);
      DivModNext(n, t);
    }
  }

  /** No two workers' shares differ in size by more than one job. */
  lemma DispatchedBalanced<J>(h: seq<J>, t: nat, p: nat, q: nat)
    requires p < t && q < t
    ensures -1 <= |Dispatched(h, t, p)| - |Dispatched(h, t, q)| <= 1
  {
    DispatchedLength(h, t, p);
    DispatchedLength(h, t, q);
  }

  /** The `i`-th scheduled job (0-indexed) is the `(i / t)`-th job of worker `i % t`. */
  lemma {:induction false} DispatchedPlacement<J>(h: seq<J>, t: nat, i: nat)
    requires t > 0 && i < |h|
    ensures i / t < |Dispatched(h, t, i % t)|
    ensures Dispatched(h, t, i % t)[i / t] == h[i]
    decreases |h|
  {
    var n := |h| - 1;
    var h' := h[..n];
    assert h == h' + [h[n]];
    DispatchedAppend(h', h[n], t, i % t);
    if i < n {
      DispatchedPlacement(h', t, i);
    } else {
      DispatchedLength(h', t, i % t);
    }
  }

  /** Conversely, the `k`-th job of worker `q` is the job scheduled at position `q + k * t`. */
  lemma {:induction false} DispatchedElement<J>(h: seq<J>, t: nat, q: nat, k: nat)
    requires q < t && k < |Dispatched(h, t, q)|
    ensures q + k * t < |h|
    ensures Dispatched(h, t, q)[k] == h[q + k * t]
    decreases |h|
  {
    var n := |h| - 1;
    var h' := h[..n];
    assert h == h' + [h[n]];
    DispatchedAppend(h', h[n], t, q);
    if k < |Dispatched(h', t, q)| {
      DispatchedElement(h', t, q, k);
    } else {
      // Only the newest job can be the extra element, and it sits at `q + k * t`.
      DispatchedLength(h', t, q);
      DivModSplit(n, t);
    }
  }

  /**
   * The queues of `t` workers after dispatching history `h` round-robin, worker `q`
   * having taken the first `taken[q]` jobs of its share: each queue holds the rest of its
   * share, in scheduling order.
   */
  ghost predicate Pending<J>(queues: seq<seq<J>>, taken: seq<nat>, h: seq<J>, t: nat)
  {
    && |queues| == t
    && |taken| == t
    && forall q :: 0 <= q < |queues| ==>
         taken[q] <= |Dispatched(h, t, q)| && queues[q] == Dispatched(h, t, q)[taken[q]..]
  }

  /** Appending the next job to the back of queue `|h| % t` keeps the queues pending. */
  lemma PendingSchedule<J>(queues: seq<seq<J>>, taken: seq<nat>, h: seq<J>, t: nat, x: J)
    requires t > 0 && Pending(queues, taken, h, t)
    ensures Pending(queues[|h| % t := queues[|h| % t] + [x]], taken, h + [x], t)
  {
    var c := |h| % t;
    var queues' := queues[c := queues[c] + [x]];
    forall q | 0 <= q < t
      ensures taken[q] <= |Dispatched(h + [x], t, q)|
      ensures queues'[q] == Dispatched(h + [x], t, q)[taken[q]..]
    {
      DispatchedAppend(h, x, t, q);
      var share := Dispatched(h, t, q);
      if q == c {
        assert queues'[q] == share[taken[q]..] + [x] == (share + [x])[taken[q]..];
      }
    }
  }

  /** Taking the front job of a non-empty queue `q` gives the next job of `q`'s share and
      keeps the queues pending, with one more job taken by `q`. */
  lemma PendingTake<J>(queues: seq<seq<J>>, taken: seq<nat>, h: seq<J>, t: nat, q: nat)
    requires Pending(queues, taken, h, t) && q < t && queues[q] != []
    ensures taken[q] < |Dispatched(h, t, q)|
    ensures queues[q][0] == Dispatched(h, t, q)[taken[q]]
    ensures Pending(queues[q := queues[q][1..]], taken[q := taken[q] + 1], h, t)
  {
    var share := Dispatched(h, t, q);
    assert queues[q][1..] == share[taken[q] + 1..];
  }

  /** The cursor kept as `n % t` follows the history when it advances by one. */
  lemma CursorNext(n: nat, t: nat)
    requires t > 0
    ensures (n % t + 1) % t == (n + 1) % t
  {
    DivModNext(n, t);
    if n % t + 1 == t {
      DivModUnique(n % t + 1, t, 1, 0);
    } else {
      DivModUnique(n % t + 1, t, 0, n % t + 1);
    }
  }
}
