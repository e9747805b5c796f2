/** Order-preserving selection from a sequence, the shape of a Python list
    comprehension with an `if` filter. Selections are described by the indices
    they keep, so callers can say exactly which elements survive and in which
    order. */
module Selection {

  /** Every later index is larger than every earlier one. */
  predicate StrictlyIncreasing(ix: seq<nat>)
  {
    forall a, b :: 0 <= a < b < |ix| ==> ix[a] < ix[b]
  }

  /** The positions of `s` whose element satisfies `keep`, in ascending order. */
  function Indices<T>(s: seq<T>, keep: T -> bool): (ix: seq<nat>)
    ensures StrictlyIncreasing(ix)
    ensures |ix| <= |s|
    ensures forall k :: 0 <= k < |ix| ==> ix[k] < |s| && keep(s[ix[k]])
    decreases |s|
  {
    if |s| == 0 then []
    else
      var front := Indices(s[..|s| - 1], keep);
      if keep(s[|s| - 1]) then front + [|s| - 1] else front
  }

  /** No kept position is missed: every position whose element satisfies
      `keep` is among the indices. */
  lemma {:induction false} IndicesComplete<T>(s: seq<T>, keep: T -> bool, i: nat)
    requires i < |s| && keep(s[i])
    ensures i in Indices(s, keep)
    decreases |s|
  {
    if i < |s| - 1 {
      IndicesComplete(s[..|s| - 1], keep, i);
    }
  }

  /** The elements of `s` that satisfy `keep`, in their original order. */
  function Filter<T>(s: seq<T>, keep: T -> bool): (r: seq<T>)
    ensures |r| <= |s|
    ensures forall k :: 0 <= k < |r| ==> keep(r[k])
    decreases |s|
  {
    if |s| == 0 then []
    else
      var front := Filter(s[..|s| - 1], keep);
      if keep(s[|s| - 1]) then front + [s[|s| - 1]] else front
  }

  /** The selection is exactly the elements at the kept indices, so it keeps
      every element that satisfies `keep`, in order, and nothing else. */
  lemma {:induction false} FilterSelects<T>(s: seq<T>, keep: T -> bool)
    ensures |Filter(s, keep)| == |Indices(s, keep)|
    ensures forall k :: 0 <= k < |Filter(s, keep)| ==> Filter(s, keep)[k] == s[Indices(s, keep)[k]]
    decreases |s|
  {
    if |s| > 0 {
      var front := s[..|s| - 1];
      FilterSelects(front, keep);
      assert forall i :: 0 <= i < |front| ==> front[i] == s[i];
    }
  }

  /** Extending the input by one element extends the selection by that element
      exactly when it is kept. */
  lemma {:induction false} FilterSnoc<T>(s: seq<T>, x: T, keep: T -> bool)
    ensures Filter(s + [x], keep) == if keep(x) then Filter(s, keep) + [x] else Filter(s, keep)
  {
    assert (s + [x])[..|s + [x]| - 1] == s;
  }

  /** The selection from a prefix one element longer, the step of a loop that
      scans `s` from the front. */
  lemma FilterPrefixStep<T>(s: seq<T>, i: nat, keep: T -> bool)
    requires i < |s|
    ensures Filter(s[..i + 1], keep) == if keep(s[i]) then Filter(s[..i], keep) + [s[i]] else Filter(s[..i], keep)
  {
    assert s[..i + 1] == s[..i] + [s[i]];
    FilterSnoc(s[..i], s[i], keep);
  }

  /** A selection is empty exactly when no element is kept. */
  lemma {:induction false} FilterEmptyIff<T>(s: seq<T>, keep: T -> bool)
    ensures Filter(s, keep) == [] <==> forall i :: 0 <= i < |s| ==> !keep(s[i])
  {
    FilterSelects(s, keep);
    var ix := Indices(s, keep);
    assert |ix| > 0 ==> ix[0] < |s| && keep(s[ix[0]]);
    if Filter(s, keep) == [] {
      forall i | 0 <= i < |s|
        ensures !keep(s[i])
      {
        if keep(s[i]) {
          IndicesComplete(s, keep, i);
        }
      }
    }
  }

  /** `f` applied to each element of `s`, in order: `[f(x) for x in s]`. */
  function Map<T, U>(s: seq<T>, f: T -> U): (r: seq<U>)
    ensures |r| == |s|
    ensures forall k :: 0 <= k < |s| ==> r[k] == f(s[k])
  {
    seq(|s|, k requires 0 <= k < |s| => f(s[k]))
  }

  lemma MapSnoc<T, U>(s: seq<T>, x: T, f: T -> U)
    ensures Map(s + [x], f) == Map(s, f) + [f(x)]
  {
  }

  /** Two sequences that agree position by position on which elements are
      kept, and on the image of each kept element, have the same image of
      their selections. */
  lemma {:induction false} MapFilterAgree<T, U, V>(a: seq<T>, b: seq<U>, keepA: T -> bool, keepB: U -> bool,
                                                  fa: T -> V, fb: U -> V)
    requires |a| == |b|
    requires forall k :: 0 <= k < |a| ==> (keepA(a[k]) <==> keepB(b[k]))
    requires forall k :: 0 <= k < |a| && keepA(a[k]) ==> fa(a[k]) == fb(b[k])
    ensures Map(Filter(a, keepA), fa) == Map(Filter(b, keepB), fb)
    decreases |a|
  {
    if |a| > 0 {
      var n := |a| - 1;
      MapFilterAgree(a[..n], b[..n], keepA, keepB, fa, fb);
      FilterPrefixStep(a, n, keepA);
      FilterPrefixStep(b, n, keepB);
      assert a[..n + 1] == a;
      assert b[..n + 1] == b;
      if keepA(a[n]) {
        MapSnoc(Filter(a[..n], keepA), a[n], fa);
        MapSnoc(Filter(b[..n], keepB), b[n], fb);
      }
    }
  }
}
