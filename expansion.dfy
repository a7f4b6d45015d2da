/** Phase 1, `bfs` and its inner `search`: combine the seed value with up to
    three more values taken from the pool, in every order and under all six
    operator/orientation choices, pairing each partial tree with the values it
    has not used. */
module Expansion {
  import opened Seqs
  import opened Ast

  /** A partial tree and the values still to be placed. */
  type Candidate = (Expr, seq<int>)

  /** The six trees `search` builds from the leaf `x` and an inner tree `t`,
      in the order it lists them. */
  function Variant(j: nat, x: int, t: Expr): Expr
    requires j < 6
  {
    match j
    case 0 => Add(Num(x), t)
    case 1 => Mul(Num(x), t)
    case 2 => Sub(Num(x), t)
    case 3 => Sub(t, Num(x))
    case 4 => Div(Num(x), t)
    case _ => Div(t, Num(x))
  }

  /** The `vec!` of six candidates built from the leaf `x` and one inner
      candidate, all sharing its leftover pool. */
  function Six(x: int, c: Candidate): (s: seq<Candidate>)
    ensures |s| == 6
    ensures forall j :: 0 <= j < 6 ==> s[j] == (Variant(j, x, c.0), c.1)
  {
    var (t, r) := c;
    [(Variant(0, x, t), r), (Variant(1, x, t), r), (Variant(2, x, t), r),
     (Variant(3, x, t), r), (Variant(4, x, t), r), (Variant(5, x, t), r)]
  }

  /** The second `map` of `search` followed by `flatten`. */
  function Combine(x: int, inner: seq<Candidate>): seq<Candidate>
  {
    if inner == [] then [] else Six(x, inner[0]) + Combine(x, inner[1..])
  }

  /** `search(this, rest, depth)`. */
  function Expand(x: int, rest: seq<int>, depth: nat): seq<Candidate>
    decreases |rest|, 1
  {
    if |rest| == 0 then [(Num(x), [])]
    else if depth > 2 then [(Num(x), rest)]
    else Combine(x, ExpandEach(rest, depth + 1, 0))
  }

  /** The first `map` of `search` followed by `flatten`: each pool element in
      turn becomes the next leaf, with the others as its pool. */
  function ExpandEach(rest: seq<int>, depth: nat, i: nat): seq<Candidate>
    requires i <= |rest|
    decreases |rest|, 0, |rest| - i
  {
    if i == |rest| then []
    else Expand(rest[i], RemoveAt(rest, i), depth) + ExpandEach(rest, depth, i + 1)
  }

  /** `bfs`: the element at index 1 is the seed, the other elements the pool;
      fewer than two values give no candidates. */
  function Bfs(values: seq<int>): seq<Candidate>
  {
    if |values| >= 2 then Expand(values[1], RemoveAt(values, 1), 0) else []
  }

  // ---------------------------------------------------------------------
  // Shape and order

  /** Candidate `6k + j` of `Combine` is variant `j` of inner candidate `k`. */
  lemma {:induction false} CombineAt(x: int, inner: seq<Candidate>, k: nat, j: nat)
    requires k < |inner| && j < 6
    ensures |Combine(x, inner)| == 6 * |inner|
    ensures Combine(x, inner)[6 * k + j] == (Variant(j, x, inner[k].0), inner[k].1)
  {
    if k > 0 {
      CombineAt(x, inner[1..], k - 1, j);
    } else if |inner| > 1 {
      CombineAt(x, inner[1..], 0, 0);
    } else {
      assert inner[1..] == [];
    }
  }

  /** Every inner candidate appears in `Combine` under each of the six variants. */
  lemma CombineHas(x: int, inner: seq<Candidate>, c: Candidate, j: nat)
    requires c in inner && j < 6
    ensures (Variant(j, x, c.0), c.1) in Combine(x, inner)
  {
    var k :| 0 <= k < |inner| && inner[k] == c;
    CombineAt(x, inner, k, j);
  }

  lemma {:induction false} ExpandEachHas(rest: seq<int>, depth: nat, i0: nat, i: nat, c: Candidate)
    requires i0 <= i < |rest|
    requires c in Expand(rest[i], RemoveAt(rest, i), depth)
    ensures c in ExpandEach(rest, depth, i0)
    decreases i - i0
  {
    if i0 < i {
      ExpandEachHas(rest, depth, i0 + 1, i, c);
    }
  }

  /** Phase 1 misses no combination it promises: when `c` is a candidate for
      the pool value at position `i` (with that value as the next leaf), each
      of the six ways of joining the leaf `x` to `c`'s tree is a candidate of
      `search(x, rest, depth)`, with `c`'s pool. */
  lemma ExpandHas(x: int, rest: seq<int>, depth: nat, i: nat, c: Candidate, j: nat)
    requires 0 < |rest| && depth <= 2 && i < |rest| && j < 6
    requires c in Expand(rest[i], RemoveAt(rest, i), depth + 1)
    ensures (Variant(j, x, c.0), c.1) in Expand(x, rest, depth)
  {
    ExpandEachHas(rest, depth + 1, 0, i, c);
    CombineHas(x, ExpandEach(rest, depth + 1, 0), c, j);
  }

  /** Number of candidates `search` emits for a pool of `n` values at `depth`. */
  function Count(n: nat, depth: nat): nat
  {
    if n == 0 || depth > 2 then 1 else 6 * n * Count(n - 1, depth + 1)
  }

  lemma {:induction false} CombineLength(x: int, inner: seq<Candidate>)
    ensures |Combine(x, inner)| == 6 * |inner|
  {
    if inner != [] {
      CombineLength(x, inner[1..]);
    }
  }

  lemma {:induction false} ExpandLength(x: int, rest: seq<int>, depth: nat)
    ensures |Expand(x, rest, depth)| == Count(|rest|, depth)
    decreases |rest|, 1
  {
    if |rest| > 0 && depth <= 2 {
      ExpandEachLength(rest, depth + 1, 0);
      CombineLength(x, ExpandEach(rest, depth + 1, 0));
    }
  }

  lemma {:induction false} ExpandEachLength(rest: seq<int>, depth: nat, i: nat)
    requires 0 < |rest| && i <= |rest|
    ensures |ExpandEach(rest, depth, i)| == (|rest| - i) * Count(|rest| - 1, depth)
    decreases |rest|, 0, |rest| - i
  {
    if i < |rest| {
      ExpandLength(rest[i], RemoveAt(rest, i), depth);
      ExpandEachLength(rest, depth, i + 1);
      var m, k := Count(|rest| - 1, depth), |rest| - i - 1;
      MulSucc(k, m);
    }
  }

  /** `bfs` on `n >= 2` values emits `Count(n - 1, 0)` candidates. */
  lemma BfsLength(values: seq<int>)
    ensures |Bfs(values)| == if |values| < 2 then 0 else Count(|values| - 1, 0)
  {
    if |values| >= 2 {
      ExpandLength(values[1], RemoveAt(values, 1), 0);
    }
  }

  /** With four or more values, `bfs` emits 6*(n-1) * 6*(n-2) * 6*(n-3) candidates. */
  lemma BfsLengthClosedForm(values: seq<int>)
    requires |values| >= 4
    ensures |Bfs(values)| == 216 * (|values| - 1) * (|values| - 2) * (|values| - 3)
  {
    BfsLength(values);
    var n := |values| - 1;
    assert Count(n - 2, 2) == 6 * (n - 2);
    assert Count(n - 1, 1) == 6 * (n - 1) * (6 * (n - 2));
    assert Count(n, 0) == 6 * n * (6 * (n - 1) * (6 * (n - 2)));
  }

  // ---------------------------------------------------------------------
  // Conservation

  function Min(a: int, b: int): int { if a <= b then a else b }

  /** The candidate `c` uses `n` leaves, and its leaves together with its pool
      are exactly the values of `whole`; its pool is a subsequence of `pool`. */
  ghost predicate Conserves(c: Candidate, whole: seq<int>, pool: seq<int>, n: int)
  {
    && multiset(Leaves(c.0)) + multiset(c.1) == multiset(whole)
    && IsSubseq(c.1, pool)
    && |Leaves(c.0)| == n
  }

  lemma VariantLeaves(j: nat, x: int, t: Expr)
    requires j < 6
    ensures multiset(Leaves(Variant(j, x, t))) == multiset{x} + multiset(Leaves(t))
    ensures |Leaves(Variant(j, x, t))| == |Leaves(t)| + 1
  {
    var l := Leaves(t);
    var s := match j
      case 0 => Leaves(Add(Num(x), t))
      case 1 => Leaves(Mul(Num(x), t))
      case 2 => Leaves(Sub(Num(x), t))
      case 3 => Leaves(Sub(t, Num(x)))
      case 4 => Leaves(Div(Num(x), t))
      case _ => Leaves(Div(t, Num(x)));
    assert s == Leaves(Variant(j, x, t));
    assert s == [x] + l || s == l + [x];
    assert multiset(s) == multiset([x]) + multiset(l);
  }

  lemma SixConserves(x: int, c: Candidate, whole: seq<int>, pool: seq<int>, n: int)
    requires Conserves(c, whole, pool, n)
    ensures forall d :: d in Six(x, c) ==> Conserves(d, [x] + whole, pool, n + 1)
  {
    assert multiset([x] + whole) == multiset{x} + multiset(whole);
    forall d | d in Six(x, c) ensures Conserves(d, [x] + whole, pool, n + 1) {
      var j :| 0 <= j < 6 && Six(x, c)[j] == d;
      VariantLeaves(j, x, c.0);
    }
  }

  lemma {:induction false} CombineConserves(x: int, inner: seq<Candidate>, whole: seq<int>, pool: seq<int>, n: int)
    requires forall c :: c in inner ==> Conserves(c, whole, pool, n)
    ensures forall c :: c in Combine(x, inner) ==> Conserves(c, [x] + whole, pool, n + 1)
  {
    if inner != [] {
      SixConserves(x, inner[0], whole, pool, n);
      CombineConserves(x, inner[1..], whole, pool, n);
    }
  }

  /** Every candidate of `search(x, rest, depth)` accounts for `x` and every
      pool value exactly once, keeps a subsequence of the pool, and has
      `min(|rest| + 1, 4 - depth)` leaves. */
  lemma {:induction false} ExpandConserves(x: int, rest: seq<int>, depth: nat)
    requires depth <= 3
    ensures forall c :: c in Expand(x, rest, depth) ==>
      Conserves(c, [x] + rest, rest, Min(|rest| + 1, 4 - depth))
    decreases |rest|, 1
  {
    SubseqRefl(rest);
    if |rest| > 0 && depth <= 2 {
      var inner := ExpandEach(rest, depth + 1, 0);
      ExpandEachConserves(rest, depth + 1, 0);
      CombineConserves(x, inner, rest, rest, Min(|rest|, 4 - (depth + 1)));
    } else if |rest| == 0 {
      assert Expand(x, rest, depth) == [(Num(x), rest)];
    }
  }

  lemma {:induction false} ExpandEachConserves(rest: seq<int>, depth: nat, i: nat)
    requires depth <= 3 && i <= |rest|
    ensures forall c :: c in ExpandEach(rest, depth, i) ==>
      Conserves(c, rest, rest, Min(|rest|, 4 - depth))
    decreases |rest|, 0, |rest| - i
  {
    if i < |rest| {
      var rest' := RemoveAt(rest, i);
      ExpandConserves(rest[i], rest', depth);
      ExpandEachConserves(rest, depth, i + 1);
      RemoveAtMultiset(rest, i);
      RemoveAtSubseq(rest, i);
      assert multiset([rest[i]] + rest') == multiset(rest);
      forall c | c in Expand(rest[i], rest', depth)
        ensures Conserves(c, rest, rest, Min(|rest|, 4 - depth))
      {
        SubseqTrans(c.1, rest', rest);
      }
    }
  }

  /** Every `bfs` candidate holds `min(n, 4)` input values as leaves and the
      rest as its pool, each value used once. */
  lemma BfsConserves(values: seq<int>)
    ensures forall c :: c in Bfs(values) ==>
      && multiset(Leaves(c.0)) + multiset(c.1) == multiset(values)
      && IsSubseq(c.1, RemoveAt(values, 1))
      && |Leaves(c.0)| == Min(|values|, 4)
  {
    if |values| >= 2 {
      var rest := RemoveAt(values, 1);
      ExpandConserves(values[1], rest, 0);
      RemoveAtMultiset(values, 1);
      assert multiset([values[1]] + rest) == multiset(values);
    }
  }
}
