/** The `compute` command: read the dice and the level, look up the level's
    three targets, prune when neither the sum nor the product reaches any of
    them, sort, run phase 1, and report the completion of the earliest phase-1
    candidate that phase 2 can finish. */
module Solver {
  import opened Seqs
  import opened Decimal
  import opened Ast
  import opened Expansion
  import opened Completion

  /** `PRIME_LUT`: three targets for each of the levels 1 to 9. */
  const PrimeLut: seq<int> := [
    3, 5, 7, 11, 13, 17, 19, 23, 29, 31, 37, 41, 43, 47, 53, 59, 61, 67, 71, 73, 79, 83, 89, 97,
    101, 103, 107
  ]

  lemma PrimeLutShape()
    ensures |PrimeLut| == 27
    ensures forall i :: 0 < i < |PrimeLut| ==> PrimeLut[i - 1] < PrimeLut[i]
    ensures forall i :: 0 <= i < |PrimeLut| ==> 3 <= PrimeLut[i] <= 107
  {
  }

  /** `this_prime` for level `lv`; only levels 1 to 9 index inside the table. */
  function Targets(lv: nat): (r: seq<int>)
    requires 1 <= lv <= 9
    ensures |r| == 3
    ensures r[0] < r[1] < r[2]
    ensures forall k :: 0 <= k < 3 ==> 3 <= r[k] <= 107
  {
    PrimeLutShape();
    var base := (lv - 1) * 3;
    [PrimeLut[base], PrimeLut[base + 1], PrimeLut[base + 2]]
  }

  /** Each level's targets lie above all targets of the level before. */
  lemma TargetsAscend(lv: nat)
    requires 2 <= lv <= 9
    ensures Targets(lv - 1)[2] < Targets(lv)[0]
  {
    PrimeLutShape();
    var base := (lv - 1) * 3;
    assert Targets(lv - 1)[2] == PrimeLut[base - 1];
    assert Targets(lv)[0] == PrimeLut[base];
  }

  /** What the command does: a reply, or a panic of the Rust code. */
  datatype Outcome = Reply(text: string) | Panic

  /** `.sum::<i32>()` from `acc`, left to right; `None` on `i32` overflow. */
  function SumFrom(acc: int, xs: seq<int>): Option<int>
    decreases |xs|
  {
    if xs == [] then Some(acc)
    else if InI32(acc + xs[0]) then SumFrom(acc + xs[0], xs[1..])
    else None
  }

  /** `.fold(acc, |acc, x| acc * x)`; `None` on `i32` overflow. */
  function ProductFrom(acc: int, xs: seq<int>): Option<int>
    decreases |xs|
  {
    if xs == [] then Some(acc)
    else if InI32(acc * xs[0]) then ProductFrom(acc * xs[0], xs[1..])
    else None
  }

  function Sum(xs: seq<int>): int
  {
    if xs == [] then 0 else xs[0] + Sum(xs[1..])
  }

  function Product(xs: seq<int>): int
  {
    if xs == [] then 1 else xs[0] * Product(xs[1..])
  }

  /** The checked sum, when it exists, is the ordinary sum. */
  lemma {:induction false} SumFromIsSum(acc: int, xs: seq<int>)
    requires SumFrom(acc, xs).Some?
    ensures SumFrom(acc, xs).value == acc + Sum(xs)
    decreases |xs|
  {
    if xs != [] {
      SumFromIsSum(acc + xs[0], xs[1..]);
    }
  }

  /** The checked product, when it exists, is the ordinary product. */
  lemma {:induction false} ProductFromIsProduct(acc: int, xs: seq<int>)
    requires ProductFrom(acc, xs).Some?
    ensures ProductFrom(acc, xs).value == acc * Product(xs)
    decreases |xs|
  {
    if xs != [] {
      ProductFromIsProduct(acc * xs[0], xs[1..]);
    }
  }

  lemma {:induction false} SumRemoveAt(xs: seq<int>, i: nat)
    requires i < |xs|
    ensures Sum(xs) == xs[i] + Sum(RemoveAt(xs, i))
    decreases i
  {
    if i > 0 {
      SumRemoveAt(xs[1..], i - 1);
      assert RemoveAt(xs, i) == [xs[0]] + RemoveAt(xs[1..], i - 1);
    } else {
      assert RemoveAt(xs, 0) == xs[1..];
    }
  }

  lemma {:induction false} ProductRemoveAt(xs: seq<int>, i: nat)
    requires i < |xs|
    ensures Product(xs) == xs[i] * Product(RemoveAt(xs, i))
    decreases i
  {
    if i > 0 {
      ProductRemoveAt(xs[1..], i - 1);
      assert RemoveAt(xs, i) == [xs[0]] + RemoveAt(xs[1..], i - 1);
      var p := Product(RemoveAt(xs[1..], i - 1));
      assert xs[0] * (xs[i] * p) == xs[i] * (xs[0] * p);
    } else {
      assert RemoveAt(xs, 0) == xs[1..];
    }
  }

  /** Removing the first element of `a` and a matching element of `b` keeps
      the two sequences permutations of each other. */
  lemma PermutationTail(a: seq<int>, b: seq<int>, i: nat)
    requires multiset(a) == multiset(b) && a != [] && i < |b| && b[i] == a[0]
    ensures multiset(a[1..]) == multiset(RemoveAt(b, i))
  {
    RemoveAtMultiset(b, i);
    assert a == [a[0]] + a[1..];
    assert multiset(a) == multiset{a[0]} + multiset(a[1..]);
    assert multiset(a[1..]) == multiset(b) - multiset{a[0]} == multiset(RemoveAt(b, i));
  }

  /** The sum depends only on which values there are. */
  lemma {:induction false} SumPermutation(a: seq<int>, b: seq<int>)
    requires multiset(a) == multiset(b)
    ensures Sum(a) == Sum(b)
    decreases |a|
  {
    assert |a| == |multiset(a)| == |multiset(b)| == |b|;
    if a != [] {
      assert a[0] in multiset(b);
      var i :| 0 <= i < |b| && b[i] == a[0];
      PermutationTail(a, b, i);
      SumPermutation(a[1..], RemoveAt(b, i));
      SumRemoveAt(b, i);
    }
  }

  /** The product depends only on which values there are. */
  lemma {:induction false} ProductPermutation(a: seq<int>, b: seq<int>)
    requires multiset(a) == multiset(b)
    ensures Product(a) == Product(b)
    decreases |a|
  {
    assert |a| == |multiset(a)| == |multiset(b)| == |b|;
    if a != [] {
      assert a[0] in multiset(b);
      var i :| 0 <= i < |b| && b[i] == a[0];
      PermutationTail(a, b, i);
      ProductPermutation(a[1..], RemoveAt(b, i));
      ProductRemoveAt(b, i);
    }
  }

  /** The plain sum and product do not depend on order, so when neither
      checked fold overflows, pruning before the sort sees the bound it would
      see after it. Whether a fold overflows does depend on the order
      (`CheckedFoldsDependOnOrder`). */
  lemma PruneBoundOrderFree(values: seq<int>)
    ensures Sum(SortSeq(values)) == Sum(values)
    ensures Product(SortSeq(values)) == Product(values)
    ensures SumFrom(0, values).Some? && SumFrom(0, SortSeq(values)).Some? ==>
      SumFrom(0, values) == SumFrom(0, SortSeq(values))
    ensures ProductFrom(1, values).Some? && ProductFrom(1, SortSeq(values)).Some? ==>
      ProductFrom(1, values) == ProductFrom(1, SortSeq(values))
  {
    SumPermutation(SortSeq(values), values);
    ProductPermutation(SortSeq(values), values);
    if SumFrom(0, values).Some? && SumFrom(0, SortSeq(values)).Some? {
      SumFromIsSum(0, values);
      SumFromIsSum(0, SortSeq(values));
      assert SumFrom(0, values).value == SumFrom(0, SortSeq(values)).value;
    }
    if ProductFrom(1, values).Some? && ProductFrom(1, SortSeq(values)).Some? {
      ProductFromIsProduct(1, values);
      ProductFromIsProduct(1, SortSeq(values));
      assert ProductFrom(1, values).value == ProductFrom(1, SortSeq(values)).value;
    }
  }

  /** The checked folds run in input order, before the sort, and whether
      they overflow depends on that order: a product that reaches 2^32
      before a zero overflows, and a sum that passes `i32::MAX` before a
      negative value does too. */
  lemma CheckedFoldsDependOnOrder()
    ensures ProductFrom(1, [65536, 65536, 0]) == None
    ensures ProductFrom(1, [0, 65536, 65536]) == Some(0)
    ensures SumFrom(0, [0x7fff_ffff, 1, -1]) == None
    ensures SumFrom(0, [-1, 1, 0x7fff_ffff]) == Some(0x7fff_ffff)
  {
  }

  /** `this_prime.iter().all(|n| max_dice_res < *n)`. */
  predicate BelowAll(upper: int, targets: seq<int>)
  {
    forall k :: 0 <= k < |targets| ==> upper < targets[k]
  }

  /** `find_first(|ans| ans.is_some())` over the phase-2 results, in list order. */
  function FirstSuccess(cands: seq<Candidate>, targets: seq<int>): Option<Expr>
  {
    if cands == [] then None
    else
      var found := Complete(cands[0].0, cands[0].1, targets);
      if found.Some? then found else FirstSuccess(cands[1..], targets)
  }

  /** Phase 1 on the sorted values, then phase 2 on every candidate. */
  function Solve(values: seq<int>, targets: seq<int>): Option<Expr>
  {
    FirstSuccess(Bfs(SortSeq(values)), targets)
  }

  /** `format!("{} = {}", ans, ans.compute().floor() as i32)`. */
  function Format(t: Expr): string
  {
    Render(t) + " = " + IntToString(FloorI32(Eval(t)))
  }

  /** `i32::max(sum, product)`. */
  function Max(a: int, b: int): int { if a >= b then a else b }

  /** After the checked sum and product: prune, or search and format. */
  function Respond(values: seq<int>, targets: seq<int>, upper: int): Outcome
  {
    if BelowAll(upper, targets) then Reply("N/A")
    else
      match Solve(values, targets)
      case Some(t) => Reply(Format(t))
      case None => Reply("N/A")
  }

  /** `compute` once the level's targets are known. */
  function Answer(values: seq<int>, targets: seq<int>): Outcome
  {
    match (SumFrom(0, values), ProductFrom(1, values))
    case (Some(s), Some(p)) => Respond(values, targets, Max(s, p))
    case _ => Panic
  }

  /** `compute(input_d6, input_lv)` as a function. */
  function ComputeSpec(inputD6: string, inputLv: string): Outcome
  {
    match ParseUsize(inputLv)
    case None => Panic
    case Some(lv) => if lv < 1 || 9 < lv then Panic else Answer(ParseDice(inputD6), Targets(lv))
  }

  // ---------------------------------------------------------------------
  // The command as a method, as the source writes it

  /** The sequential scan that `into_par_iter().map(dfs).find_first(is_some)`
      is equivalent to: the earliest candidate in list order that succeeds. */
  method FindFirst(cands: seq<Candidate>, targets: seq<int>) returns (ans: Option<Expr>)
    ensures ans == FirstSuccess(cands, targets)
  {
    var i := 0;
    while i < |cands|
      invariant i <= |cands|
      invariant FirstSuccess(cands[i..], targets) == FirstSuccess(cands, targets)
    {
      assert cands[i..][1..] == cands[i + 1..];
      ans := Dfs(cands[i].0, cands[i].1, targets);
      if ans.Some? {
        return;
      }
      i := i + 1;
    }
    return None;
  }

  /** Lines 39 to 58 of `compute`: sort the dice in place, run phase 1 and
      scan for the first candidate that phase 2 completes. */
  method Search(values: seq<int>, targets: seq<int>) returns (ans: Option<Expr>)
    ensures ans == Solve(values, targets)
  {
    var dice := new int[|values|](i requires 0 <= i < |values| => values[i]);
    assert dice[..] == values;
    SortInPlace(dice);
    var calculated := Bfs(dice[..]);
    ans := FindFirst(calculated, targets);
  }

  /** `compute`: parse, look up, prune, sort in place, phase 1, phase 2, format. */
  method Compute(inputD6: string, inputLv: string) returns (out: Outcome)
    ensures out == ComputeSpec(inputD6, inputLv)
  {
    var values := ParseDice(inputD6);
    var level := ParseUsize(inputLv);
    if level.None? {
      return Panic;
    }
    var lv := level.value;
    if lv < 1 || 9 < lv {
      return Panic;
    }
    var targets := Targets(lv);
    var sum, product := SumFrom(0, values), ProductFrom(1, values);
    if sum.None? || product.None? {
      return Panic;
    }
    var maxDiceRes := Max(sum.value, product.value);
    if BelowAll(maxDiceRes, targets) {
      return Reply("N/A");
    }
    var ans := Search(values, targets);
    if ans.Some? {
      return Reply(Format(ans.value));
    }
    return Reply("N/A");
  }

  // ---------------------------------------------------------------------
  // Properties of the command

  /** `find_first` returns the phase-2 answer of the earliest succeeding
      candidate, and `None` exactly when every candidate fails. */
  lemma {:induction false} FirstSuccessIsEarliest(cands: seq<Candidate>, targets: seq<int>)
    ensures FirstSuccess(cands, targets).None? <==>
      forall c :: c in cands ==> Complete(c.0, c.1, targets).None?
    ensures FirstSuccess(cands, targets).Some? ==>
      exists k :: 0 <= k < |cands| && Complete(cands[k].0, cands[k].1, targets) == FirstSuccess(cands, targets)
        && forall j :: 0 <= j < k ==> Complete(cands[j].0, cands[j].1, targets).None?
  {
    if cands != [] {
      FirstSuccessIsEarliest(cands[1..], targets);
      assert cands == [cands[0]] + cands[1..];
      var first := Complete(cands[0].0, cands[0].1, targets);
      if first.None? && FirstSuccess(cands, targets).Some? {
        var k :| 0 <= k < |cands[1..]|
          && Complete(cands[1..][k].0, cands[1..][k].1, targets) == FirstSuccess(cands, targets)
          && forall j :: 0 <= j < k ==> Complete(cands[1..][j].0, cands[1..][j].1, targets).None?;
        assert cands[k + 1] == cands[1..][k];
        forall j | 0 <= j < k + 1 ensures Complete(cands[j].0, cands[j].1, targets).None? {
          if j > 0 {
            assert cands[j] == cands[1..][j - 1];
          }
        }
      }
    }
  }

  lemma FirstSuccessFrom(cands: seq<Candidate>, targets: seq<int>)
    requires FirstSuccess(cands, targets).Some?
    ensures exists c :: c in cands && Complete(c.0, c.1, targets) == FirstSuccess(cands, targets)
  {
    FirstSuccessIsEarliest(cands, targets);
    var k :| 0 <= k < |cands| && Complete(cands[k].0, cands[k].1, targets) == FirstSuccess(cands, targets);
    assert cands[k] in cands;
  }

  /** A solution uses every die exactly once and floors to one of the targets. */
  lemma SolveSound(values: seq<int>, targets: seq<int>)
    requires Solve(values, targets).Some?
    ensures Matches(Solve(values, targets).value, targets)
    ensures multiset(Leaves(Solve(values, targets).value)) == multiset(values)
    ensures |values| >= 2
  {
    var sorted := SortSeq(values);
    var cands := Bfs(sorted);
    var t := Solve(values, targets).value;
    FirstSuccessFrom(cands, targets);
    var c :| c in cands && Complete(c.0, c.1, targets) == Some(t);
    BfsConserves(sorted);
    CompleteSound(c.0, c.1, targets);
    assert |sorted| == |multiset(sorted)| == |multiset(values)| == |values|;
  }

  /** With a level in range, `compute` is `Answer` on the parsed dice. */
  lemma ComputeValidLevel(inputD6: string, inputLv: string)
    requires ParseUsize(inputLv).Some? && 1 <= ParseUsize(inputLv).value <= 9
    ensures ComputeSpec(inputD6, inputLv) == Answer(ParseDice(inputD6), Targets(ParseUsize(inputLv).value))
  {
  }

  /** Fewer than two dice always give "N/A" once the level is valid. */
  lemma FewDiceNotAvailable(inputD6: string, inputLv: string)
    requires |ParseDice(inputD6)| < 2
    requires ParseUsize(inputLv).Some? && 1 <= ParseUsize(inputLv).value <= 9
    ensures ComputeSpec(inputD6, inputLv) == Reply("N/A")
  {
    ComputeValidLevel(inputD6, inputLv);
    var values := ParseDice(inputD6);
    var targets := Targets(ParseUsize(inputLv).value);
    var sorted := SortSeq(values);
    assert |sorted| == |multiset(sorted)| == |multiset(values)| == |values|;
    assert Bfs(sorted) == [];
    assert Solve(values, targets) == None;
    if |values| == 1 {
      assert values[1..] == [];
      assert SumFrom(0, values) == Some(values[0]);
      assert ProductFrom(1, values) == Some(values[0]);
    }
    assert Answer(values, targets) == Respond(values, targets, Max(SumFrom(0, values).value, ProductFrom(1, values).value));
  }

  /** The command panics exactly when the level does not parse, lies outside
      1 to 9, or the sum or product of the dice overflows `i32`. */
  lemma PanicIff(inputD6: string, inputLv: string)
    ensures ComputeSpec(inputD6, inputLv) == Panic <==>
      || ParseUsize(inputLv).None?
      || !(1 <= ParseUsize(inputLv).value <= 9)
      || SumFrom(0, ParseDice(inputD6)).None?
      || ProductFrom(1, ParseDice(inputD6)).None?
  {
  }

  /** When the larger of the sum and the product is below all three targets
      the command answers "N/A" without searching. */
  lemma PrunedNotAvailable(inputD6: string, inputLv: string)
    requires ParseUsize(inputLv).Some? && 1 <= ParseUsize(inputLv).value <= 9
    requires SumFrom(0, ParseDice(inputD6)).Some? && ProductFrom(1, ParseDice(inputD6)).Some?
    requires var values := ParseDice(inputD6);
      BelowAll(Sum(values), Targets(ParseUsize(inputLv).value))
      && BelowAll(Product(values), Targets(ParseUsize(inputLv).value))
    ensures ComputeSpec(inputD6, inputLv) == Reply("N/A")
  {
    ComputeValidLevel(inputD6, inputLv);
    var values := ParseDice(inputD6);
    var targets := Targets(ParseUsize(inputLv).value);
    SumFromIsSum(0, values);
    ProductFromIsProduct(1, values);
    var s, p := SumFrom(0, values).value, ProductFrom(1, values).value;
    assert BelowAll(Max(s, p), targets);
    assert Answer(values, targets) == Respond(values, targets, Max(s, p));
  }

  lemma FormatIsNotNotAvailable(t: Expr)
    ensures Format(t) != "N/A"
  {
    assert |Format(t)| >= 5;
  }

  /** Every reply other than "N/A" is `render(t) = n` for a tree `t` that
      uses each parsed die exactly once and whose floored value `n` is one of
      the level's targets. */
  lemma ComputeSuccess(inputD6: string, inputLv: string)
    requires ComputeSpec(inputD6, inputLv).Reply? && ComputeSpec(inputD6, inputLv).text != "N/A"
    ensures ParseUsize(inputLv).Some? && 1 <= ParseUsize(inputLv).value <= 9
    ensures var values := ParseDice(inputD6);
      var targets := Targets(ParseUsize(inputLv).value);
      && |values| >= 2
      && Solve(values, targets).Some?
      && var t := Solve(values, targets).value;
      && ComputeSpec(inputD6, inputLv).text == Render(t) + " = " + IntToString(FloorI32(Eval(t)))
      && FloorI32(Eval(t)) in targets
      && Eval(t).Finite? && FloorI32(Eval(t)) == Eval(t).x.Floor
      && multiset(Leaves(t)) == multiset(values)
  {
    var values := ParseDice(inputD6);
    var targets := Targets(ParseUsize(inputLv).value);
    SolveSound(values, targets);
    MatchIsFinite(Solve(values, targets).value, targets);
  }

  /** A success is never reported as "N/A": the text tells the two apart. */
  lemma ReplyNotAvailableIff(inputD6: string, inputLv: string)
    requires ComputeSpec(inputD6, inputLv).Reply?
    ensures ComputeSpec(inputD6, inputLv).text == "N/A" <==>
      var values := ParseDice(inputD6);
      var targets := Targets(ParseUsize(inputLv).value);
      var s, p := SumFrom(0, values).value, ProductFrom(1, values).value;
      BelowAll(Max(s, p), targets) || Solve(values, targets).None?
  {
    var values := ParseDice(inputD6);
    var targets := Targets(ParseUsize(inputLv).value);
    if Solve(values, targets).Some? {
      FormatIsNotNotAvailable(Solve(values, targets).value);
    }
  }

  // ---------------------------------------------------------------------
  // Concrete inputs

  /** The three table entries a valid level reads. */
  lemma TargetsAt(lv: nat)
    requires 1 <= lv <= 9
    ensures Targets(lv) == [PrimeLut[3 * lv - 3], PrimeLut[3 * lv - 2], PrimeLut[3 * lv - 1]]
  {
  }

  lemma TargetsOfLevels()
    ensures Targets(1) == [3, 5, 7]
    ensures Targets(2) == [11, 13, 17]
    ensures Targets(5) == [43, 47, 53]
    ensures Targets(9) == [101, 103, 107]
  {
    TargetsOfLevel(1, 3, 5, 7);
    TargetsOfLevel(2, 11, 13, 17);
    TargetsOfLevel(5, 43, 47, 53);
    TargetsOfLevel(9, 101, 103, 107);
  }

  lemma TargetsOfLevel(lv: nat, a: int, b: int, c: int)
    requires 1 <= lv <= 9
    requires PrimeLut[3 * lv - 3] == a && PrimeLut[3 * lv - 2] == b && PrimeLut[3 * lv - 1] == c
    ensures Targets(lv) == [a, b, c]
  {
    TargetsAt(lv);
  }

  lemma ParseSingleDigit(c: char)
    requires IsDigit(c)
    ensures ParseDice([c]) == [c as int - '0' as int]
  {
    assert [c][1..] == [] && [c][..0] == [];
    assert Split([c]) == [[c] + []] + [[]][1..];
    assert DigitsValue([c]) == c as int - '0' as int;
  }

  /** Two digit tokens around a token that does not parse give the two digits. */
  lemma DigitsAroundJunk(c1: char, junk: string, c2: char)
    requires IsDigit(c1) && IsDigit(c2)
    requires '|' !in junk && ParseI32(junk) == None
    ensures ParseDice([c1] + "|" + junk + "|" + [c2]) == [c1 as int - '0' as int, c2 as int - '0' as int]
  {
    MalformedTokenDropped([c1], junk, [c2]);
    ParseDiceConcat([c1], [c2]);
    ParseSingleDigit(c1);
    ParseSingleDigit(c2);
  }

  /** `"3|x|2"`: the malformed token is dropped and the dice are `[3, 2]`. */
  lemma MalformedExample()
    ensures ParseDice("3|x|2") == [3, 2]
  {
    assert ParseI32("x") == None;
    DigitsAroundJunk('3', "x", '2');
    assert "3|x|2" == ['3'] + "|" + "x" + "|" + ['2'];
  }

  /** The checked sum and product of two small values. */
  lemma SumProductPair(x: int, y: int)
    requires 0 <= x < 10 && 0 <= y < 10
    ensures SumFrom(0, [x, y]) == Some(x + y)
    ensures ProductFrom(1, [x, y]) == Some(x * y)
  {
    assert [x, y][1..] == [y] && [y][1..] == [];
    assert SumFrom(x + y, []) == Some(x + y);
    assert SumFrom(x, [y]) == SumFrom(x + y, []);
    assert ProductFrom(x * y, []) == Some(x * y);
    assert ProductFrom(x, [y]) == ProductFrom(x * y, []);
  }

  /** Dice `[1, 1]` at level 1: `max(2, 1)` is below 3, 5 and 7, so "N/A". */
  lemma PrunedExample()
    ensures ComputeSpec("1|1", "1") == Reply("N/A")
  {
    var d := "1|1";
    assert d == ['1'] + "|" + ['1'];
    ParseDiceConcat(['1'], ['1']);
    ParseSingleDigit('1');
    assert ParseDice(d) == [1, 1];
    assert ParseUsize("1") == Some(1);
    ComputeValidLevel(d, "1");
    TargetsOfLevels();
    SumProductPair(1, 1);
    assert Answer([1, 1], [3, 5, 7]) == Respond([1, 1], [3, 5, 7], 2);
  }

  /** The phase-1 candidates of four equal digits `x`: the first is
      `x+(x+(x+x))` and the second `x*(x+(x+x))`, both with nothing pending. */
  lemma FourEqualCandidates(x: int)
    ensures var inner := Add(Num(x), Add(Num(x), Num(x)));
      && |Bfs([x, x, x, x])| >= 2
      && Bfs([x, x, x, x])[0] == (Add(Num(x), inner), [])
      && Bfs([x, x, x, x])[1] == (Mul(Num(x), inner), [])
  {
    var leaf: Candidate := (Num(x), []);
    assert ExpandEach([x], 3, 1) == [];
    assert ExpandEach([x], 3, 0) == [leaf];
    var e2 := ExpandEach([x, x], 2, 0);
    assert RemoveAt([x, x], 0) == [x];
    assert e2 == Expand(x, [x], 2) + ExpandEach([x, x], 2, 1);
    CombineAt(x, [leaf], 0, 0);
    assert e2[0] == (Add(Num(x), Num(x)), []);
    var e1 := ExpandEach([x, x, x], 1, 0);
    assert RemoveAt([x, x, x], 0) == [x, x];
    assert e1 == Expand(x, [x, x], 1) + ExpandEach([x, x, x], 1, 1);
    CombineAt(x, e2, 0, 0);
    assert e1[0] == (Add(Num(x), Add(Num(x), Num(x))), []);
    assert RemoveAt([x, x, x, x], 1) == [x, x, x];
    CombineAt(x, e1, 0, 0);
    CombineAt(x, e1, 0, 1);
  }

  /** Four digit tokens joined by the separator give the four digits. */
  lemma FourDigitsParse(c1: char, c2: char, c3: char, c4: char)
    requires IsDigit(c1) && IsDigit(c2) && IsDigit(c3) && IsDigit(c4)
    ensures ParseDice([c1] + "|" + ([c2] + "|" + ([c3] + "|" + [c4]))) ==
      [c1 as int - '0' as int, c2 as int - '0' as int, c3 as int - '0' as int, c4 as int - '0' as int]
  {
    ParseSingleDigit(c1);
    ParseSingleDigit(c2);
    ParseSingleDigit(c3);
    ParseSingleDigit(c4);
    ParseDiceConcat([c3], [c4]);
    ParseDiceConcat([c2], [c3] + "|" + [c4]);
    ParseDiceConcat([c1], [c2] + "|" + ([c3] + "|" + [c4]));
  }

  /** Four dice already in order are left as they are by the sort. */
  lemma SortFour(v: seq<int>)
    requires |v| == 4 && v[0] <= v[1] <= v[2] <= v[3]
    ensures SortSeq(v) == v
  {
    forall p, q | 0 <= p < q < |v| ensures v[p] <= v[q] {
    }
    SortedUnique(SortSeq(v), v);
  }

  /** Four equal dice whose first candidate fails and whose second matches
      are solved by the second. */
  lemma FourEqualSolve(x: int, targets: seq<int>)
    requires var inner := Add(Num(x), Add(Num(x), Num(x)));
      !Matches(Add(Num(x), inner), targets) && Matches(Mul(Num(x), inner), targets)
    ensures Solve([x, x, x, x], targets) == Some(Mul(Num(x), Add(Num(x), Add(Num(x), Num(x)))))
  {
    SortFour([x, x, x, x]);
    FourEqualCandidates(x);
    var cands := Bfs([x, x, x, x]);
    assert cands[1..][0] == cands[1];
    assert FirstSuccess(cands, targets) == FirstSuccess(cands[1..], targets);
  }

  /** The second candidate of four equal digits prints as `x*(x+x+x)`. */
  lemma FourEqualRender(x: int)
    requires 0 <= x < 10
    ensures var c := DigitChar(x);
      Render(Mul(Num(x), Add(Num(x), Add(Num(x), Num(x))))) == [c, '*', '(', c, '+', c, '+', c, ')']
  {
    var c := DigitChar(x);
    DigitLeaf(x);
    DigitPair(x, x);
    assert Render(Add(Num(x), Add(Num(x), Num(x)))) == "(" + [c] + "+" + ([c] + "+" + [c]) + ")";
  }

  lemma FourOnesMatches()
    ensures !Matches(Add(Num(1), Add(Num(1), Add(Num(1), Num(1)))), [3, 5, 7])
    ensures Matches(Mul(Num(1), Add(Num(1), Add(Num(1), Num(1)))), [3, 5, 7])
    ensures FloorI32(Eval(Mul(Num(1), Add(Num(1), Add(Num(1), Num(1)))))) == 3
  {
    var inner := Add(Num(1), Add(Num(1), Num(1)));
    assert Eval(inner) == Finite(3.0);
    assert Eval(Add(Num(1), inner)) == Finite(4.0);
    assert Eval(Mul(Num(1), inner)) == Finite(3.0);
  }

  /** Dice `1|1|1|1` at level 1: the sum 4 is not below every target, the
      first candidate `1+(1+(1+1))` evaluates to 4 and fails, and the second,
      `1*(1+1+1)`, evaluates to 3 and is reported. */
  lemma FourOnesExample()
    ensures ComputeSpec("1|1|1|1", "1") == Reply("1*(1+1+1) = 3")
  {
    FourDigitsParse('1', '1', '1', '1');
    assert "1|1|1|1" == ['1'] + "|" + (['1'] + "|" + (['1'] + "|" + ['1']));
    assert ParseUsize("1") == Some(1);
    TargetsOfLevels();
    FourOnesMatches();
    assert !BelowAll(Max(4, 1), [3, 5, 7]);
    ComputeFourEqual("1|1|1|1", "1", 1);
    FourOnesFormat();
  }

  /** Four equal dice at a level where the first candidate fails, the second
      matches and pruning does not fire are answered with the second. */
  lemma ComputeFourEqual(inputD6: string, inputLv: string, x: int)
    requires 0 <= x < 10 && ParseDice(inputD6) == [x, x, x, x]
    requires ParseUsize(inputLv).Some? && 1 <= ParseUsize(inputLv).value <= 9
    requires var targets := Targets(ParseUsize(inputLv).value);
      var inner := Add(Num(x), Add(Num(x), Num(x)));
      && !BelowAll(Max(4 * x, x * x * x * x), targets)
      && !Matches(Add(Num(x), inner), targets) && Matches(Mul(Num(x), inner), targets)
    ensures ComputeSpec(inputD6, inputLv) == Reply(Format(Mul(Num(x), Add(Num(x), Add(Num(x), Num(x))))))
  {
    var values, targets := [x, x, x, x], Targets(ParseUsize(inputLv).value);
    ComputeValidLevel(inputD6, inputLv);
    SumProductFour(x);
    assert Answer(values, targets) == Respond(values, targets, Max(4 * x, x * x * x * x));
    FourEqualSolve(x, targets);
  }

  lemma FourOnesFormat()
    ensures Format(Mul(Num(1), Add(Num(1), Add(Num(1), Num(1))))) == "1*(1+1+1) = 3"
  {
    FourEqualRender(1);
    FourOnesMatches();
    assert DigitChar(1) == '1';
    assert IntToString(3) == "3";
    var a, b := "1*(1+1+1)" + " = " + "3", "1*(1+1+1) = 3";
    assert |a| == |b|;
    forall i | 0 <= i < |a| ensures a[i] == b[i] {}
  }

  /** Phase 1 on four dice `[w, x, y, z]` builds, with nothing pending,
      the tree `x+(z*(y+w))`: the seed `x`, then `z`, `y`, `w`. */
  lemma BfsBuildsFour(v: seq<int>)
    requires |v| == 4
    ensures (Add(Num(v[1]), Mul(Num(v[3]), Add(Num(v[2]), Num(v[0])))), []) in Bfs(v)
  {
    var rest := RemoveAt(v, 1);
    assert rest == [v[0], v[2], v[3]];
    assert RemoveAt(rest, 2) == [v[0], v[2]];
    var inner := Mul(Num(v[3]), Add(Num(v[2]), Num(v[0])));
    PhaseOneThree(v[0], v[2], v[3]);
    ExpandHas(v[1], rest, 0, 2, (inner, []), 0);
  }

  /** Three dice `[a, b, c]` expanded from depth 1 build `c*(b+a)`. */
  lemma PhaseOneThree(a: int, b: int, c: int)
    ensures (Mul(Num(c), Add(Num(b), Num(a))), []) in Expand(c, [a, b], 1)
  {
    assert Expand(a, [], 3) == [(Num(a), [])];
    assert RemoveAt([a], 0) == [];
    ExpandHas(b, [a], 2, 0, (Num(a), []), 0);
    assert RemoveAt([a, b], 1) == [a];
    ExpandHas(c, [a, b], 1, 1, (Add(Num(b), Num(a)), []), 1);
  }

  /** The search succeeds whenever some phase-1 candidate with nothing
      pending matches a target. */
  lemma SolveFindsCandidate(values: seq<int>, targets: seq<int>, t: Expr)
    requires (t, []) in Bfs(SortSeq(values)) && Matches(t, targets)
    ensures Solve(values, targets).Some?
  {
    FirstSuccessIsEarliest(Bfs(SortSeq(values)), targets);
    assert Complete(t, [], targets) == Some(t);
  }

  /** `1+6*(2+1)` evaluates to 19, the first target of level 3. */
  lemma NineteenMatches()
    ensures Matches(Add(Num(1), Mul(Num(6), Add(Num(2), Num(1)))), [19, 23, 29])
  {
    var t := Add(Num(1), Mul(Num(6), Add(Num(2), Num(1))));
    assert Eval(Add(Num(2), Num(1))) == Finite(3.0);
    assert Eval(Mul(Num(6), Add(Num(2), Num(1)))) == Finite(18.0);
    assert Eval(t) == Finite(19.0);
  }

  /** `"1|1|2|6"` parses to the dice 1, 1, 2, 6, whose checked sum is 10
      and checked product 12. */
  lemma DiceOneOneTwoSix()
    ensures ParseDice("1|1|2|6") == [1, 1, 2, 6]
    ensures SumFrom(0, [1, 1, 2, 6]) == Some(10) && ProductFrom(1, [1, 1, 2, 6]) == Some(12)
    ensures Sum([1, 1, 2, 6]) == 10 && Product([1, 1, 2, 6]) == 12
  {
    FourDigitsParse('1', '1', '2', '6');
    assert "1|1|2|6" == ['1'] + "|" + (['1'] + "|" + (['2'] + "|" + ['6']));
  }

  /** Four dice whose checked sum `s` and product `p` exist, with the larger
      below every target of a valid level, are answered "N/A". */
  lemma ComputePrunedFour(inputD6: string, inputLv: string, w: int, x: int, y: int, z: int, s: int, p: int)
    requires ParseDice(inputD6) == [w, x, y, z]
    requires SumFrom(0, [w, x, y, z]) == Some(s) && ProductFrom(1, [w, x, y, z]) == Some(p)
    requires ParseUsize(inputLv).Some? && 1 <= ParseUsize(inputLv).value <= 9
    requires BelowAll(Max(s, p), Targets(ParseUsize(inputLv).value))
    ensures ComputeSpec(inputD6, inputLv) == Reply("N/A")
  {
    ComputeValidLevel(inputD6, inputLv);
    var values, targets := [w, x, y, z], Targets(ParseUsize(inputLv).value);
    assert Answer(values, targets) == Respond(values, targets, Max(s, p));
  }

  /** Dice `1|1|2|6` at level 3 are answered "N/A" by the pruning test. */
  lemma PrunedFourExample()
    ensures ComputeSpec("1|1|2|6", "3") == Reply("N/A")
  {
    assert ParseUsize("3") == Some(3);
    TargetsOfLevel(3, 19, 23, 29);
    assert BelowAll(Max(10, 12), [19, 23, 29]);
    DiceOneOneTwoSix();
    ComputePrunedFour("1|1|2|6", "3", 1, 1, 2, 6, 10, 12);
  }

  /** On the dice 1, 1, 2, 6 phase 1 builds `1+6*(2+1)` with nothing pending,
      it evaluates to 19, and the search at level 3 succeeds. */
  lemma SearchFindsNineteen()
    ensures var t := Add(Num(1), Mul(Num(6), Add(Num(2), Num(1))));
      && (t, []) in Bfs(SortSeq([1, 1, 2, 6]))
      && Matches(t, Targets(3))
      && Solve([1, 1, 2, 6], Targets(3)).Some?
  {
    var t := Add(Num(1), Mul(Num(6), Add(Num(2), Num(1))));
    TargetsOfLevel(3, 19, 23, 29);
    SortFour([1, 1, 2, 6]);
    BfsBuildsFour([1, 1, 2, 6]);
    NineteenMatches();
    SolveFindsCandidate([1, 1, 2, 6], [19, 23, 29], t);
  }

  /** Pruning can hide a solution: `compute("1|1|2|6", "3")` answers "N/A"
      although the search on the same dice finds `1+6*(2+1)`, which is 19. */
  lemma PruningHidesSolution()
    ensures ComputeSpec("1|1|2|6", "3") == Reply("N/A")
    ensures var t := Add(Num(1), Mul(Num(6), Add(Num(2), Num(1))));
      && (t, []) in Bfs(SortSeq([1, 1, 2, 6]))
      && Matches(t, Targets(3))
      && Solve([1, 1, 2, 6], Targets(3)).Some?
  {
    PrunedFourExample();
    SearchFindsNineteen();
  }

  /** The checked sum and product of four equal digits. */
  lemma SumProductFour(x: int)
    requires 0 <= x < 10
    ensures SumFrom(0, [x, x, x, x]) == Some(4 * x)
    ensures ProductFrom(1, [x, x, x, x]) == Some(x * x * x * x)
  {
    var v := [x, x, x, x];
    assert v[1..] == [x, x, x] && [x, x, x][1..] == [x, x] && [x, x][1..] == [x] && [x][1..] == [];
    assert SumFrom(0, v) == SumFrom(x, [x, x, x]) == SumFrom(2 * x, [x, x]) == SumFrom(3 * x, [x]);
    assert SumFrom(3 * x, [x]) == SumFrom(4 * x, []);
    var p2 := x * x;
    var p3 := p2 * x;
    assert ProductFrom(1, v) == ProductFrom(x, [x, x, x]) == ProductFrom(p2, [x, x]) == ProductFrom(p3, [x]);
    assert ProductFrom(p3, [x]) == ProductFrom(p3 * x, []);
  }

  lemma PrintSixtyFiveThousand()
    ensures IntToString(65536) == "65536" && IntToString(0) == "0"
  {
  }

  lemma OverflowDiceParse()
    ensures ParseDice("65536|65536|0") == [65536, 65536, 0]
  {
    PrintSixtyFiveThousand();
    var xs := [65536, 65536, 0];
    assert Decimals(xs) == ["65536", "65536", "0"];
    assert Join(["65536", "65536", "0"]) == "65536|65536|0";
    ParseJoinedDice(xs);
  }

  lemma OverflowDiceSorted()
    ensures SortSeq([65536, 65536, 0]) == [0, 65536, 65536]
  {
    var xs := [65536, 65536, 0];
    assert Sorted([0, 65536, 65536]);
    assert multiset([0, 65536, 65536]) == multiset(xs);
    SortedUnique(SortSeq(xs), [0, 65536, 65536]);
  }

  /** Dice `65536|65536|0` at level 1 make `compute` panic: the product
      overflows at 65536 * 65536, before the zero. Sorted, the same dice
      have the checked product 0. */
  lemma OverflowPanicExample()
    ensures ComputeSpec("65536|65536|0", "1") == Panic
    ensures ProductFrom(1, SortSeq([65536, 65536, 0])) == Some(0)
  {
    assert ParseUsize("1") == Some(1);
    CheckedFoldsDependOnOrder();
    OverflowDiceSorted();
    OverflowDiceParse();
    PanicIff("65536|65536|0", "1");
  }

  /** Phase 1 on four dice `[w, x, y, z]` builds, with nothing pending,
      the tree `x*(w+z/y)`: the seed `x`, then `w`, `z`, `y`. */
  lemma BfsBuildsQuotient(v: seq<int>)
    requires |v| == 4
    ensures (Mul(Num(v[1]), Add(Num(v[0]), Div(Num(v[3]), Num(v[2])))), []) in Bfs(v)
  {
    var rest := RemoveAt(v, 1);
    assert rest == [v[0], v[2], v[3]];
    assert RemoveAt(rest, 0) == [v[2], v[3]];
    assert Expand(v[2], [], 3) == [(Num(v[2]), [])];
    assert RemoveAt([v[2]], 0) == [];
    ExpandHas(v[3], [v[2]], 2, 0, (Num(v[2]), []), 4);
    assert RemoveAt([v[2], v[3]], 1) == [v[2]];
    ExpandHas(v[0], [v[2], v[3]], 1, 1, (Div(Num(v[3]), Num(v[2])), []), 0);
    ExpandHas(v[1], rest, 0, 0, (Add(Num(v[0]), Div(Num(v[3]), Num(v[2]))), []), 1);
  }

  /** `3*(1+5/3)` is exactly 8 over the reals, which is no target of level 1. */
  lemma QuotientIsEight()
    ensures Eval(Mul(Num(3), Add(Num(1), Div(Num(5), Num(3))))) == Finite(8.0)
    ensures !Matches(Mul(Num(3), Add(Num(1), Div(Num(5), Num(3)))), [3, 5, 7])
  {
    var q := Div(Num(5), Num(3));
    assert Eval(q) == Finite(5.0 / 3.0);
    assert Eval(Add(Num(1), q)) == Finite(8.0 / 3.0);
    assert Eval(Mul(Num(3), Add(Num(1), q))) == Finite(8.0);
    assert FloorI32(Finite(8.0)) == 8;
  }

  /** Exact arithmetic and `f32` disagree on a phase-1 candidate. For dice
      `1|3|3|5` phase 1 builds `3*(1+5/3)`. The model evaluates it to exactly
      8, which is no target of level 1, while in `f32` it is 7.9999995 and
      floors to the target 7. */
  lemma RoundingExample()
    ensures var t := Mul(Num(3), Add(Num(1), Div(Num(5), Num(3))));
      && (t, []) in Bfs(SortSeq([1, 3, 3, 5]))
      && Eval(t) == Finite(8.0)
      && !Matches(t, Targets(1))
  {
    QuotientIsEight();
    TargetsOfLevels();
    SortFour([1, 3, 3, 5]);
    BfsBuildsQuotient([1, 3, 3, 5]);
  }

  /** Level `"0"` underflows `lv - 1` and level `"10"` indexes past the table. */
  lemma LevelOutOfRangeExample(inputD6: string)
    ensures ComputeSpec(inputD6, "0") == Panic
    ensures ComputeSpec(inputD6, "10") == Panic
  {
    assert ParseUsize("0") == Some(0);
    assert "10"[..1] == "1";
    assert ParseUsize("10") == Some(10);
  }
}
