/** Positions in sequences. */
module Seqs {
  import opened Wrappers

  predicate Distinct<T(==)>(s: seq<T>) {
    forall i, j :: 0 <= i < j < |s| ==> s[i] != s[j]
  }

  /** Position of the last occurrence of `x`, or `None` when absent. */
  function LastIndexOf<T(==)>(s: seq<T>, x: T): (r: Option<nat>)
    ensures r.None? <==> x !in s
    ensures r.Some? ==> r.value < |s| && s[r.value] == x && x !in s[r.value + 1..]
  {
    if |s| == 0 then None
    else if s[|s| - 1] == x then Some(|s| - 1)
    else
      var r := LastIndexOf(s[..|s| - 1], x);
      if r.Some? then
        assert s[r.value + 1..] == s[..|s| - 1][r.value + 1..] + [s[|s| - 1]];
        r
      else None
  }

  lemma NotInTail<T>(s: seq<T>, i: nat, x: T)
    requires i < |s| && x !in s[i..]
    ensures x != s[i] && x !in s[i + 1..]
  {
    assert s[i..] == [s[i]] + s[i + 1..];
  }

  /** In a sequence without repeats, an element does not occur after its position. */
  lemma DistinctTail<T>(s: seq<T>, i: nat)
    requires Distinct(s) && i < |s|
    ensures s[i] !in s[i + 1..]
  {
  }

  /** The sequences of `xss` one after the other. */
  function Concat<T(!new)>(xss: seq<seq<T>>): (xs: seq<T>)
    ensures forall x :: x in xs <==> exists i :: 0 <= i < |xss| && x in xss[i]
  {
    if |xss| == 0 then []
    else
      var init := xss[..|xss| - 1];
      assert forall i :: 0 <= i < |init| ==> init[i] == xss[i];
      Concat(init) + xss[|xss| - 1]
  }

  /** The concatenation starts with the first sequence. */
  lemma {:induction false} ConcatStarts<T(!new)>(xss: seq<seq<T>>)
    requires |xss| > 0
    ensures xss[0] <= Concat(xss)
    decreases |xss|
  {
    if |xss| > 1 {
      var init := xss[..|xss| - 1];
      ConcatStarts(init);
      assert init[0] == xss[0];
    }
  }

  /** The values of `xs[i..]` in order, or the first failure among them:
      a loop that stops at the first exception. */
  function Collect<T, E>(xs: seq<Result<T, E>>, i: nat): (r: Result<seq<T>, E>)
    requires i <= |xs|
    ensures r.Success? <==> forall k :: i <= k < |xs| ==> xs[k].Success?
    ensures r.Success? ==> |r.value| == |xs| - i
    ensures r.Success? ==> forall k :: i <= k < |xs| ==> r.value[k - i] == xs[k].value
    decreases |xs| - i
  {
    if i == |xs| then Success([])
    else if xs[i].Failure? then Failure(xs[i].error)
    else
      var rest := Collect(xs, i + 1);
      if rest.Failure? then Failure(rest.error)
      else Success([xs[i].value] + rest.value)
  }

  /** The failure `Collect` returns is the first one. */
  lemma {:induction false} CollectFailsAt<T, E>(xs: seq<Result<T, E>>, i: nat, k: nat)
    requires i <= k < |xs| && xs[k].Failure?
    requires forall j :: i <= j < k ==> xs[j].Success?
    ensures Collect(xs, i) == Failure(xs[k].error)
    decreases k - i
  {
    if i < k {
      CollectFailsAt(xs, i + 1, k);
    }
  }

  /** Position of the first element from `i` on that satisfies `p`, as
      `next(x for x in s if p(x))`; `None` where the generator is exhausted. */
  function FirstWhere<T>(s: seq<T>, p: T -> bool, i: nat): (r: Option<nat>)
    requires i <= |s|
    ensures r.Some? ==> i <= r.value < |s| && p(s[r.value])
    ensures r.Some? ==> forall j :: i <= j < r.value ==> !p(s[j])
    ensures r.None? ==> forall j :: i <= j < |s| ==> !p(s[j])
    decreases |s| - i
  {
    if i == |s| then None
    else if p(s[i]) then Some(i)
    else FirstWhere(s, p, i + 1)
  }

  /** Position of the last element below `n` that satisfies `p`: the match
      a loop without `break` is left holding. */
  function LastWhere<T>(s: seq<T>, p: T -> bool, n: nat): (r: Option<nat>)
    requires n <= |s|
    ensures r.Some? ==> r.value < n && p(s[r.value])
    ensures r.Some? ==> forall j :: r.value < j < n ==> !p(s[j])
    ensures r.None? ==> forall j :: 0 <= j < n ==> !p(s[j])
  {
    if n == 0 then None
    else if p(s[n - 1]) then Some(n - 1)
    else LastWhere(s, p, n - 1)
  }
}
