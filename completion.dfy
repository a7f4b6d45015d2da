/** Phase 2, `dfs` and its inner `search`: extend a partial tree by every
    remaining value, one at a time, in every position order and under six
    operator/orientation choices, and return the first complete tree whose
    floored value is a target. */
module Completion {
  import opened Seqs
  import opened Ast

  /** The six extensions `search` tries, in its order, for the partial tree
      `e` and the next value `v`. */
  function Extend(k: nat, e: Expr, v: int): Expr
    requires k < 6
  {
    match k
    case 0 => Add(e, Num(v))
    case 1 => Mul(e, Num(v))
    case 2 => Sub(Num(v), e)
    case 3 => Sub(e, Num(v))
    case 4 => Div(e, Num(v))
    case _ => Div(Num(v), e)
  }

  /** `dfs(before, rest, prime)` as a function: the first success of the
      exhaustive search, or `None`. */
  function Complete(before: Expr, rest: seq<int>, targets: seq<int>): Option<Expr>
    decreases |rest|, 2
  {
    if |rest| == 0 then (if Matches(before, targets) then Some(before) else None)
    else TryPositions(before, rest, targets, 0)
  }

  /** The `for` loop over `all_kind_rest` from position `i` on. */
  function TryPositions(before: Expr, rest: seq<int>, targets: seq<int>, i: nat): Option<Expr>
    requires 0 < |rest| && i <= |rest|
    decreases |rest|, 1, |rest| - i
  {
    if i == |rest| then None
    else
      var found := TryKinds(before, rest[i], RemoveAt(rest, i), targets, 0);
      if found.Some? then found else TryPositions(before, rest, targets, i + 1)
  }

  /** The six early-returning calls of one loop iteration, from extension `k` on. */
  function TryKinds(before: Expr, v: int, rest: seq<int>, targets: seq<int>, k: nat): Option<Expr>
    requires k <= 6
    decreases |rest| + 1, 0, 6 - k
  {
    if k == 6 then None
    else
      var found := Complete(Extend(k, before, v), rest, targets);
      if found.Some? then found else TryKinds(before, v, rest, targets, k + 1)
  }

  // ---------------------------------------------------------------------
  // The search as a method, as the source writes it

  /** The `(next, rest)` pairs of `all_kind_rest`. */
  function Picks(rest: seq<int>): (r: seq<(int, seq<int>)>)
    ensures |r| == |rest|
    ensures forall i :: 0 <= i < |rest| ==> r[i] == (rest[i], RemoveAt(rest, i))
  {
    seq(|rest|, i requires 0 <= i < |rest| => (rest[i], RemoveAt(rest, i)))
  }

  /** Each pick takes out one pending value and leaves the others, in order:
      the pair accounts for every pending value once, and the leftover pool
      is a subsequence one shorter. */
  lemma PicksPartition(rest: seq<int>)
    ensures forall i :: 0 <= i < |Picks(rest)| ==>
      && multiset{Picks(rest)[i].0} + multiset(Picks(rest)[i].1) == multiset(rest)
      && IsSubseq(Picks(rest)[i].1, rest)
      && |Picks(rest)[i].1| == |rest| - 1
  {
    forall i | 0 <= i < |Picks(rest)|
      ensures multiset{Picks(rest)[i].0} + multiset(Picks(rest)[i].1) == multiset(rest)
      ensures IsSubseq(Picks(rest)[i].1, rest)
    {
      RemoveAtMultiset(rest, i);
      RemoveAtSubseq(rest, i);
    }
  }

  /** `dfs` / `search` with its `for` loop and six early returns. */
  method Dfs(before: Expr, rest: seq<int>, targets: seq<int>) returns (ans: Option<Expr>)
    ensures ans == Complete(before, rest, targets)
    decreases |rest|
  {
    if |rest| == 0 && Matches(before, targets) {
      return Some(before);
    }
    if |rest| == 0 {
      return None;
    }
    var allKindRest := Picks(rest);
    for i := 0 to |allKindRest|
      invariant TryPositions(before, rest, targets, i) == Complete(before, rest, targets)
    {
      var (v, rest') := allKindRest[i];
      ans := Dfs(Add(before, Num(v)), rest', targets);
      if ans.Some? { return; }
      assert TryKinds(before, v, rest', targets, 0) == TryKinds(before, v, rest', targets, 1);
      ans := Dfs(Mul(before, Num(v)), rest', targets);
      if ans.Some? { return; }
      assert TryKinds(before, v, rest', targets, 0) == TryKinds(before, v, rest', targets, 2);
      ans := Dfs(Sub(Num(v), before), rest', targets);
      if ans.Some? { return; }
      assert TryKinds(before, v, rest', targets, 0) == TryKinds(before, v, rest', targets, 3);
      ans := Dfs(Sub(before, Num(v)), rest', targets);
      if ans.Some? { return; }
      assert TryKinds(before, v, rest', targets, 0) == TryKinds(before, v, rest', targets, 4);
      ans := Dfs(Div(before, Num(v)), rest', targets);
      if ans.Some? { return; }
      assert TryKinds(before, v, rest', targets, 0) == TryKinds(before, v, rest', targets, 5);
      ans := Dfs(Div(Num(v), before), rest', targets);
      if ans.Some? { return; }
      assert TryKinds(before, v, rest', targets, 0) == TryKinds(before, v, rest', targets, 6);
    }
    return None;
  }

  // ---------------------------------------------------------------------
  // Reference enumeration: every completion, in search order

  /** Every complete tree the search visits, in the order it visits them. */
  function AllCompletions(before: Expr, rest: seq<int>): seq<Expr>
    decreases |rest|, 2
  {
    if |rest| == 0 then [before] else CompletionsFrom(before, rest, 0)
  }

  function CompletionsFrom(before: Expr, rest: seq<int>, i: nat): seq<Expr>
    requires 0 < |rest| && i <= |rest|
    decreases |rest|, 1, |rest| - i
  {
    if i == |rest| then []
    else CompletionsOf(before, rest[i], RemoveAt(rest, i), 0) + CompletionsFrom(before, rest, i + 1)
  }

  function CompletionsOf(before: Expr, v: int, rest: seq<int>, k: nat): seq<Expr>
    requires k <= 6
    decreases |rest| + 1, 0, 6 - k
  {
    if k == 6 then []
    else AllCompletions(Extend(k, before, v), rest) + CompletionsOf(before, v, rest, k + 1)
  }

  /** The first tree of `ts` that matches a target. */
  function FirstMatch(ts: seq<Expr>, targets: seq<int>): Option<Expr>
  {
    if ts == [] then None
    else if Matches(ts[0], targets) then Some(ts[0])
    else FirstMatch(ts[1..], targets)
  }

  lemma {:induction false} FirstMatchConcat(a: seq<Expr>, b: seq<Expr>, targets: seq<int>)
    ensures FirstMatch(a + b, targets) ==
      if FirstMatch(a, targets).Some? then FirstMatch(a, targets) else FirstMatch(b, targets)
  {
    if a == [] {
      assert a + b == b;
    } else {
      assert (a + b)[0] == a[0] && (a + b)[1..] == a[1..] + b;
      FirstMatchConcat(a[1..], b, targets);
    }
  }

  /** `FirstMatch` finds the earliest matching tree, and `None` means none matches. */
  lemma {:induction false} FirstMatchSpec(ts: seq<Expr>, targets: seq<int>)
    ensures FirstMatch(ts, targets).None? <==> forall t :: t in ts ==> !Matches(t, targets)
    ensures FirstMatch(ts, targets).Some? ==>
      exists k :: 0 <= k < |ts| && ts[k] == FirstMatch(ts, targets).value
        && Matches(ts[k], targets)
        && forall j :: 0 <= j < k ==> !Matches(ts[j], targets)
  {
    if ts != [] {
      FirstMatchSpec(ts[1..], targets);
      assert ts == [ts[0]] + ts[1..];
      if !Matches(ts[0], targets) && FirstMatch(ts, targets).Some? {
        var k :| 0 <= k < |ts[1..]| && ts[1..][k] == FirstMatch(ts, targets).value
          && Matches(ts[1..][k], targets)
          && forall j :: 0 <= j < k ==> !Matches(ts[1..][j], targets);
        assert ts[k + 1] == ts[1..][k];
        assert forall j :: 0 <= j < k + 1 ==> !Matches(ts[j], targets) by {
          forall j | 0 <= j < k + 1 ensures !Matches(ts[j], targets) {
            if j > 0 {
              assert ts[j] == ts[1..][j - 1];
            }
          }
        }
      }
    }
  }

  /** The depth-first search returns exactly the first matching tree of the
      full enumeration: its search order, its completeness and its soundness. */
  lemma {:induction false} CompleteIsFirstMatch(before: Expr, rest: seq<int>, targets: seq<int>)
    ensures Complete(before, rest, targets) == FirstMatch(AllCompletions(before, rest), targets)
    decreases |rest|, 2
  {
    if |rest| == 0 {
      assert [before][1..] == [];
    } else {
      PositionsAreFirstMatch(before, rest, targets, 0);
    }
  }

  lemma {:induction false} PositionsAreFirstMatch(before: Expr, rest: seq<int>, targets: seq<int>, i: nat)
    requires 0 < |rest| && i <= |rest|
    ensures TryPositions(before, rest, targets, i) == FirstMatch(CompletionsFrom(before, rest, i), targets)
    decreases |rest|, 1, |rest| - i
  {
    if i < |rest| {
      var rest' := RemoveAt(rest, i);
      KindsAreFirstMatch(before, rest[i], rest', targets, 0);
      PositionsAreFirstMatch(before, rest, targets, i + 1);
      FirstMatchConcat(CompletionsOf(before, rest[i], rest', 0), CompletionsFrom(before, rest, i + 1), targets);
    }
  }

  lemma {:induction false} KindsAreFirstMatch(before: Expr, v: int, rest: seq<int>, targets: seq<int>, k: nat)
    requires k <= 6
    ensures TryKinds(before, v, rest, targets, k) == FirstMatch(CompletionsOf(before, v, rest, k), targets)
    decreases |rest| + 1, 0, 6 - k
  {
    if k < 6 {
      CompleteIsFirstMatch(Extend(k, before, v), rest, targets);
      KindsAreFirstMatch(before, v, rest, targets, k + 1);
      FirstMatchConcat(AllCompletions(Extend(k, before, v), rest), CompletionsOf(before, v, rest, k + 1), targets);
    }
  }

  // ---------------------------------------------------------------------
  // What every completion is

  /** `t` arises from `pre` by `n` steps, each joining the tree so far with a
      single leaf under one operator (so `pre` is a subtree of `t`). */
  predicate BuiltFrom(t: Expr, pre: Expr, n: nat)
    decreases t
  {
    if n == 0 then t == pre
    else match t
      case Num(_) => false
      case Add(l, r) => r.Num? && BuiltFrom(l, pre, n - 1)
      case Mul(l, r) => r.Num? && BuiltFrom(l, pre, n - 1)
      case Sub(l, r) => (l.Num? && BuiltFrom(r, pre, n - 1)) || (r.Num? && BuiltFrom(l, pre, n - 1))
      case Div(l, r) => (l.Num? && BuiltFrom(r, pre, n - 1)) || (r.Num? && BuiltFrom(l, pre, n - 1))
  }

  lemma {:induction false} BuiltFromStep(t: Expr, k: nat, e: Expr, v: int, n: nat)
    requires k < 6 && BuiltFrom(t, Extend(k, e, v), n)
    ensures BuiltFrom(t, e, n + 1)
    decreases t
  {
    if n == 0 {
      assert t == Extend(k, e, v);
    } else {
      match t
      case Num(_) =>
      case Add(l, r) => BuiltFromStep(l, k, e, v, n - 1);
      case Mul(l, r) => BuiltFromStep(l, k, e, v, n - 1);
      case Sub(l, r) =>
        if l.Num? && BuiltFrom(r, Extend(k, e, v), n - 1) {
          BuiltFromStep(r, k, e, v, n - 1);
        } else {
          BuiltFromStep(l, k, e, v, n - 1);
        }
      case Div(l, r) =>
        if l.Num? && BuiltFrom(r, Extend(k, e, v), n - 1) {
          BuiltFromStep(r, k, e, v, n - 1);
        } else {
          BuiltFromStep(l, k, e, v, n - 1);
        }
    }
  }

  /** What the search may return: the tree uses the leaves of `pre` and every
      pending value exactly once, and is `pre` extended by one leaf per value. */
  ghost predicate IsCompletion(t: Expr, pre: Expr, rest: seq<int>)
  {
    && multiset(Leaves(t)) == multiset(Leaves(pre)) + multiset(rest)
    && BuiltFrom(t, pre, |rest|)
  }

  lemma {:induction false} CompletionsAreCompletions(before: Expr, rest: seq<int>)
    ensures forall t :: t in AllCompletions(before, rest) ==> IsCompletion(t, before, rest)
    decreases |rest|, 2
  {
    if |rest| > 0 {
      CompletionsFromAre(before, rest, 0);
    }
  }

  lemma {:induction false} CompletionsFromAre(before: Expr, rest: seq<int>, i: nat)
    requires 0 < |rest| && i <= |rest|
    ensures forall t :: t in CompletionsFrom(before, rest, i) ==> IsCompletion(t, before, rest)
    decreases |rest|, 1, |rest| - i
  {
    if i < |rest| {
      var r := RemoveAt(rest, i);
      var here, later := CompletionsOf(before, rest[i], r, 0), CompletionsFrom(before, rest, i + 1);
      RemoveAtMultiset(rest, i);
      CompletionsOfAre(before, rest[i], r, 0);
      CompletionsFromAre(before, rest, i + 1);
      assert CompletionsFrom(before, rest, i) == here + later;
      forall t | t in here + later ensures IsCompletion(t, before, rest) {
        if t in here {
          assert multiset(Leaves(t)) == multiset(Leaves(before)) + (multiset(r) + multiset{rest[i]});
          assert BuiltFrom(t, before, |r| + 1);
        }
      }
    }
  }

  lemma ExtendLeaves(k: nat, e: Expr, v: int)
    requires k < 6
    ensures multiset(Leaves(Extend(k, e, v))) == multiset(Leaves(e)) + multiset{v}
  {
    var l, n := Leaves(e), [v];
    assert multiset(l + n) == multiset(n + l) == multiset(l) + multiset{v};
    match k {
      case 0 => assert Leaves(Add(e, Num(v))) == l + n;
      case 1 => assert Leaves(Mul(e, Num(v))) == l + n;
      case 2 => assert Leaves(Sub(Num(v), e)) == n + l;
      case 3 => assert Leaves(Sub(e, Num(v))) == l + n;
      case 4 => assert Leaves(Div(e, Num(v))) == l + n;
      case _ => assert Leaves(Div(Num(v), e)) == n + l;
    }
  }

  lemma ExtendCompletionsAre(before: Expr, v: int, rest: seq<int>, k: nat)
    requires k < 6
    ensures forall t :: t in AllCompletions(Extend(k, before, v), rest) ==>
      && multiset(Leaves(t)) == multiset(Leaves(before)) + multiset(rest) + multiset{v}
      && BuiltFrom(t, before, |rest| + 1)
    decreases |rest| + 1, 0, 0
  {
    var e := Extend(k, before, v);
    CompletionsAreCompletions(e, rest);
    ExtendLeaves(k, before, v);
    forall t | t in AllCompletions(e, rest)
      ensures multiset(Leaves(t)) == multiset(Leaves(before)) + multiset(rest) + multiset{v}
      ensures BuiltFrom(t, before, |rest| + 1)
    {
      assert IsCompletion(t, e, rest);
      BuiltFromStep(t, k, before, v, |rest|);
    }
  }

  lemma {:induction false} CompletionsOfAre(before: Expr, v: int, rest: seq<int>, k: nat)
    requires k <= 6
    ensures forall t :: t in CompletionsOf(before, v, rest, k) ==>
      && multiset(Leaves(t)) == multiset(Leaves(before)) + multiset(rest) + multiset{v}
      && BuiltFrom(t, before, |rest| + 1)
    decreases |rest| + 1, 0, 6 - k
  {
    if k < 6 {
      ExtendCompletionsAre(before, v, rest, k);
      CompletionsOfAre(before, v, rest, k + 1);
    }
  }

  /** Soundness of `dfs`: a returned tree matches a target, uses each leaf of
      `pre` and each pending value exactly once, and extends `pre` one leaf
      per pending value. */
  lemma CompleteSound(pre: Expr, rest: seq<int>, targets: seq<int>)
    requires Complete(pre, rest, targets).Some?
    ensures Matches(Complete(pre, rest, targets).value, targets)
    ensures IsCompletion(Complete(pre, rest, targets).value, pre, rest)
  {
    CompleteIsFirstMatch(pre, rest, targets);
    FirstMatchSpec(AllCompletions(pre, rest), targets);
    CompletionsAreCompletions(pre, rest);
  }

  /** Completeness of `dfs`: it fails only when no completion in its
      enumeration matches. */
  lemma CompleteNoneIff(pre: Expr, rest: seq<int>, targets: seq<int>)
    ensures Complete(pre, rest, targets).None? <==>
      forall t :: t in AllCompletions(pre, rest) ==> !Matches(t, targets)
  {
    CompleteIsFirstMatch(pre, rest, targets);
    FirstMatchSpec(AllCompletions(pre, rest), targets);
  }

  // ---------------------------------------------------------------------
  // Size of the search

  /** `6^n * n!`: the number of leaves of the search tree over `n` pending values. */
  function Branches(n: nat): nat
  {
    if n == 0 then 1 else 6 * n * Branches(n - 1)
  }

  lemma {:induction false} AllCompletionsLength(before: Expr, rest: seq<int>)
    ensures |AllCompletions(before, rest)| == Branches(|rest|)
    decreases |rest|, 2
  {
    if |rest| > 0 {
      CompletionsFromLength(before, rest, 0);
      var n := |rest|;
      assert Branches(n) == n * (6 * Branches(n - 1));
    }
  }

  lemma {:induction false} CompletionsFromLength(before: Expr, rest: seq<int>, i: nat)
    requires 0 < |rest| && i <= |rest|
    ensures |CompletionsFrom(before, rest, i)| == (|rest| - i) * (6 * Branches(|rest| - 1))
    decreases |rest|, 1, |rest| - i
  {
    if i < |rest| {
      var r := RemoveAt(rest, i);
      CompletionsOfLength(before, rest[i], r, 0);
      CompletionsFromLength(before, rest, i + 1);
      var m, j := 6 * Branches(|rest| - 1), |rest| - i - 1;
      assert CompletionsFrom(before, rest, i) == CompletionsOf(before, rest[i], r, 0) + CompletionsFrom(before, rest, i + 1);
      MulSucc(j, m);
    }
  }

  lemma {:induction false} CompletionsOfLength(before: Expr, v: int, rest: seq<int>, k: nat)
    requires k <= 6
    ensures |CompletionsOf(before, v, rest, k)| == (6 - k) * Branches(|rest|)
    decreases |rest| + 1, 0, 6 - k
  {
    if k < 6 {
      AllCompletionsLength(Extend(k, before, v), rest);
      CompletionsOfLength(before, v, rest, k + 1);
    }
  }
}
