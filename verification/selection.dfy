/**
 * Order-preserving selection over an index range, and first-match search.
 *
 * Both filters of the channel script walk their input once, front to back,
 * and keep some of the items; `Picks` is that walk, stated once, and
 * `PickedIndices` names which positions it kept.
 */
module Selection {
  import opened Wrappers

  /** The present values among f(0), f(1), ..., f(n - 1), in index order. */
  function Picks<U>(f: nat -> Option<U>, n: nat): seq<U>
  {
    if n == 0 then [] else Picks(f, n - 1) + Pick(f, n - 1)
  }

  /** What position i contributes to Picks: its value, or nothing. */
  function Pick<U>(f: nat -> Option<U>, i: nat): seq<U>
  {
    if f(i).Some? then [f(i).value] else []
  }

  /** The positions below n at which f has a value, in increasing order. */
  function PickedIndices<U>(f: nat -> Option<U>, n: nat): (idx: seq<nat>)
    ensures forall j :: 0 <= j < |idx| ==> idx[j] < n && f(idx[j]).Some?
    ensures forall j, j' :: 0 <= j < j' < |idx| ==> idx[j] < idx[j']
  {
    if n == 0 then [] else PickedIndices(f, n - 1) + (if f(n - 1).Some? then [n - 1] else [])
  }

  /** Every position below n at which f has a value is picked: nothing is skipped. */
  lemma {:induction false} PickedIndicesComplete<U>(f: nat -> Option<U>, n: nat, k: nat)
    requires k < n && f(k).Some?
    ensures k in PickedIndices(f, n)
  {
    if k < n - 1 {
      PickedIndicesComplete(f, n - 1, k);
      assert PickedIndices(f, n) == PickedIndices(f, n - 1) + (if f(n - 1).Some? then [n - 1] else []);
    } else {
      assert PickedIndices(f, n) == PickedIndices(f, n - 1) + [k];
      assert PickedIndices(f, n)[|PickedIndices(f, n - 1)|] == k;
    }
  }

  /** Picks is exactly the values at the picked positions: one output per kept position, in order. */
  lemma {:induction false} PicksAreSelection<U>(f: nat -> Option<U>, n: nat)
    ensures |Picks(f, n)| == |PickedIndices(f, n)|
    ensures forall j :: 0 <= j < |PickedIndices(f, n)| ==>
              f(PickedIndices(f, n)[j]) == Some(Picks(f, n)[j])
  {
    if n > 0 {
      PicksAreSelection(f, n - 1);
      var idx, out := PickedIndices(f, n), Picks(f, n);
      var front, vals := PickedIndices(f, n - 1), Picks(f, n - 1);
      if f(n - 1).Some? {
        assert idx == front + [n - 1] && out == vals + [f(n - 1).value];
        forall j | 0 <= j < |idx|
          ensures f(idx[j]) == Some(out[j])
        {
          if j < |front| {
            assert idx[j] == front[j] && out[j] == vals[j];
          }
        }
      } else {
        assert idx == front && out == vals;
      }
    }
  }

  /** Extending the range by one position appends what that position contributes. */
  lemma PicksExtend<U>(f: nat -> Option<U>, n: nat, e: Option<U>)
    requires e == f(n)
    ensures Picks(f, n + 1) == Picks(f, n) + (if e.Some? then [e.value] else [])
  {
  }

  /** Extending the range by a position without a value changes nothing. */
  lemma PicksExtendNone<U>(f: nat -> Option<U>, n: nat)
    requires f(n).None?
    ensures Picks(f, n + 1) == Picks(f, n)
  {
    assert Picks(f, n) + [] == Picks(f, n);
  }

  /** The number of positions below n satisfying g. */
  function CountWhere(g: nat -> bool, n: nat): nat
  {
    if n == 0 then 0 else CountWhere(g, n - 1) + (if g(n - 1) then 1 else 0)
  }

  /** When every kept position satisfies g, there are no more outputs than positions satisfying g. */
  lemma {:induction false} PicksBound<U>(f: nat -> Option<U>, g: nat -> bool, n: nat)
    requires forall k: nat :: k < n && f(k).Some? ==> g(k)
    ensures |Picks(f, n)| <= CountWhere(g, n)
  {
    if n > 0 {
      PicksBound(f, g, n - 1);
    }
  }

  /** The first position in [i, n) satisfying g, if any. */
  function FirstWhere(g: nat -> bool, i: nat, n: nat): (r: Option<nat>)
    ensures r.Some? ==> i <= r.value < n && g(r.value)
    ensures r.Some? ==> forall k: nat :: i <= k < r.value ==> !g(k)
    ensures r.None? ==> forall k: nat :: i <= k < n ==> !g(k)
    decreases n - i
  {
    if i >= n then None
    else if g(i) then Some(i)
    else FirstWhere(g, i + 1, n)
  }

  /** A position satisfying g with none before it is the one FirstWhere finds. */
  lemma FirstWhereIs(g: nat -> bool, n: nat, p: nat)
    requires p < n && g(p)
    requires forall q: nat :: q < p ==> !g(q)
    ensures FirstWhere(g, 0, n) == Some(p)
  {
  }

  /** With no position satisfying g, FirstWhere finds nothing. */
  lemma FirstWhereNone(g: nat -> bool, n: nat)
    requires forall q: nat :: q < n ==> !g(q)
    ensures FirstWhere(g, 0, n) == None
  {
  }
}
