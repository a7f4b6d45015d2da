/** The expression tree `AstNode`: its evaluation, the target test on the
    floored value, and its textual rendering (`Display::fmt` with `simplify`). */
module Ast {
  import opened Seqs
  import opened Decimal

  /** An expression over the dice values; every leaf holds one input value. */
  datatype Expr =
    | Add(l: Expr, r: Expr)
    | Mul(l: Expr, r: Expr)
    | Sub(l: Expr, r: Expr)
    | Div(l: Expr, r: Expr)
    | Num(n: int)

  /** The leaf values from left to right. */
  function Leaves(t: Expr): (s: seq<int>)
    ensures |s| >= 1
  {
    match t
    case Num(n) => [n]
    case Add(l, r) => Leaves(l) + Leaves(r)
    case Mul(l, r) => Leaves(l) + Leaves(r)
    case Sub(l, r) => Leaves(l) + Leaves(r)
    case Div(l, r) => Leaves(l) + Leaves(r)
  }

  // ---------------------------------------------------------------------
  // Evaluation

  /** A floating-point result: a real number, or one of the non-finite values
      that division by zero produces and later operations propagate. */
  datatype Value = Finite(x: real) | PosInf | NegInf | NaN

  function Neg(a: Value): Value
  {
    match a
    case Finite(x) => Finite(-x)
    case PosInf => NegInf
    case NegInf => PosInf
    case NaN => NaN
  }

  function Plus(a: Value, b: Value): Value
  {
    if a.NaN? || b.NaN? then NaN
    else if a.Finite? && b.Finite? then Finite(a.x + b.x)
    else if (a == PosInf && b == NegInf) || (a == NegInf && b == PosInf) then NaN
    else if a == PosInf || b == PosInf then PosInf
    else NegInf
  }

  function Minus(a: Value, b: Value): Value
  {
    Plus(a, Neg(b))
  }

  function SignOf(a: Value): int
    requires !a.NaN?
  {
    match a
    case Finite(x) => if x > 0.0 then 1 else if x < 0.0 then -1 else 0
    case PosInf => 1
    case NegInf => -1
  }

  function Times(a: Value, b: Value): Value
  {
    if a.NaN? || b.NaN? then NaN
    else if a.Finite? && b.Finite? then Finite(a.x * b.x)
    else
      var s := SignOf(a) * SignOf(b);
      if s == 0 then NaN else if s > 0 then PosInf else NegInf
  }

  /** Division: a finite value over zero is an infinity (0/0 is NaN), a finite
      value over an infinity is zero, an infinity over an infinity is NaN. */
  function Divide(a: Value, b: Value): Value
  {
    if a.NaN? || b.NaN? then NaN
    else if a.Finite? && b.Finite? then
      if b.x != 0.0 then Finite(a.x / b.x)
      else if a.x > 0.0 then PosInf
      else if a.x < 0.0 then NegInf
      else NaN
    else if a.Finite? then Finite(0.0)
    else if !b.Finite? then NaN
    else if b.x < 0.0 then Neg(a)
    else a
  }

  /** `AstNode::compute`. */
  function Eval(t: Expr): Value
  {
    match t
    case Num(n) => Finite(n as real)
    case Add(l, r) => Plus(Eval(l), Eval(r))
    case Mul(l, r) => Times(Eval(l), Eval(r))
    case Sub(l, r) => Minus(Eval(l), Eval(r))
    case Div(l, r) => Divide(Eval(l), Eval(r))
  }

  /** Integer arithmetic on a tree without quotients: a reference for `Eval`. */
  function IntEval(t: Expr): int
    requires !HasDiv(t)
  {
    match t
    case Num(n) => n
    case Add(l, r) => IntEval(l) + IntEval(r)
    case Mul(l, r) => IntEval(l) * IntEval(r)
    case Sub(l, r) => IntEval(l) - IntEval(r)
  }

  /** Without a quotient no infinity or NaN can arise, and the floating-point
      evaluation is the exact integer value of the tree. */
  lemma {:induction false} EvalWithoutDiv(t: Expr)
    requires !HasDiv(t)
    ensures Eval(t) == Finite(IntEval(t) as real)
  {
    match t {
      case Num(n) =>
      case Add(l, r) =>
        EvalWithoutDiv(l);
        EvalWithoutDiv(r);
      case Mul(l, r) =>
        EvalWithoutDiv(l);
        EvalWithoutDiv(r);
        IntToRealMul(IntEval(l), IntEval(r));
      case Sub(l, r) =>
        EvalWithoutDiv(l);
        EvalWithoutDiv(r);
    }
  }

  lemma IntToRealMul(a: int, b: int)
    ensures (a * b) as real == a as real * b as real
  {
  }

  /** `v.floor() as i32`: the cast saturates and sends NaN to zero. */
  function FloorI32(v: Value): (n: int)
    ensures InI32(n)
    ensures v.Finite? && InI32(v.x.Floor) ==> n == v.x.Floor
  {
    match v
    case NaN => 0
    case PosInf => I32Max
    case NegInf => I32Min
    case Finite(x) => if x.Floor < I32Min then I32Min else if x.Floor > I32Max then I32Max else x.Floor
  }

  /** `prime.contains(&(t.compute().floor() as i32))`. */
  predicate Matches(t: Expr, targets: seq<int>)
  {
    FloorI32(Eval(t)) in targets
  }

  /** When no target is 0 or an `i32` bound, only a finite value can match. */
  lemma MatchIsFinite(t: Expr, targets: seq<int>)
    requires forall k :: 0 <= k < |targets| ==> 0 < targets[k] < I32Max
    requires Matches(t, targets)
    ensures Eval(t).Finite?
    ensures FloorI32(Eval(t)) == Eval(t).x.Floor
  {
    var k :| 0 <= k < |targets| && targets[k] == FloorI32(Eval(t));
  }

  /** Non-finite values propagate: one divided by (one divided by zero) is zero. */
  lemma InfinityPropagates()
    ensures Eval(Div(Num(1), Div(Num(1), Num(0)))) == Finite(0.0)
    ensures Eval(Div(Num(0), Num(0))) == NaN
    ensures Eval(Sub(Div(Num(1), Num(0)), Div(Num(2), Num(0)))) == NaN
  {
  }

  // ---------------------------------------------------------------------
  // Rendering

  predicate IsParen(c: char) { c == '(' || c == ')' }

  /** `display.replace("(", "").replace(")", "")`. */
  function StripParens(s: string): (r: string)
    ensures '(' !in r && ')' !in r
  {
    if s == [] then []
    else (if IsParen(s[0]) then [] else [s[0]]) + StripParens(s[1..])
  }

  /** `format!("{}", t)`: sums and differences are bracketed around their
      simplified operands; products and quotients show operands in full. */
  function Render(t: Expr): string
    decreases t, 0
  {
    match t
    case Num(n) => IntToString(n)
    case Add(l, r) => "(" + Simplify(l) + "+" + Simplify(r) + ")"
    case Sub(l, r) => "(" + Simplify(l) + "-" + Simplify(r) + ")"
    case Mul(l, r) => Render(l) + "*" + Render(r)
    case Div(l, r) => Render(l) + "/" + Render(r)
  }

  /** `AstNode::simplify`: drop every bracket of a rendering that has no `*` or `/`. */
  function Simplify(t: Expr): string
    decreases t, 1
  {
    var d := Render(t);
    if '*' !in d && '/' !in d then StripParens(d) else d
  }

  /** The infix text of the tree with no brackets at all. */
  function Flat(t: Expr): string
  {
    match t
    case Num(n) => IntToString(n)
    case Add(l, r) => Flat(l) + "+" + Flat(r)
    case Sub(l, r) => Flat(l) + "-" + Flat(r)
    case Mul(l, r) => Flat(l) + "*" + Flat(r)
    case Div(l, r) => Flat(l) + "/" + Flat(r)
  }

  predicate HasMul(t: Expr)
  {
    match t
    case Num(_) => false
    case Mul(_, _) => true
    case Add(l, r) => HasMul(l) || HasMul(r)
    case Sub(l, r) => HasMul(l) || HasMul(r)
    case Div(l, r) => HasMul(l) || HasMul(r)
  }

  predicate HasDiv(t: Expr)
  {
    match t
    case Num(_) => false
    case Div(_, _) => true
    case Add(l, r) => HasDiv(l) || HasDiv(r)
    case Sub(l, r) => HasDiv(l) || HasDiv(r)
    case Mul(l, r) => HasDiv(l) || HasDiv(r)
  }

  lemma {:induction false} StripConcat(a: string, b: string)
    ensures StripParens(a + b) == StripParens(a) + StripParens(b)
  {
    if a == [] {
      assert a + b == b;
    } else {
      assert (a + b)[1..] == a[1..] + b;
      StripConcat(a[1..], b);
    }
  }

  lemma {:induction false} StripKeepsOthers(s: string, c: char)
    requires !IsParen(c)
    ensures c in StripParens(s) <==> c in s
  {
    if s != [] {
      StripKeepsOthers(s[1..], c);
      assert s == [s[0]] + s[1..];
    }
  }

  lemma {:induction false} StripWithoutParens(s: string)
    requires '(' !in s && ')' !in s
    ensures StripParens(s) == s
  {
    if s != [] {
      assert s == [s[0]] + s[1..];
      StripWithoutParens(s[1..]);
      assert s == [s[0]] + s[1..];
    }
  }

  lemma DecimalOnlyDigits(n: int)
    ensures '(' !in IntToString(n) && ')' !in IntToString(n)
    ensures '*' !in IntToString(n) && '/' !in IntToString(n)
  {
  }

  /** A character occurs in `a op b` exactly when it is `op` or occurs in `a` or `b`. */
  lemma InInfix(c: char, a: string, op: char, b: string)
    ensures c in a + [op] + b <==> c == op || c in a || c in b
  {
    assert (a + [op] + b)[|a|] == op;
    if c in a + [op] + b {
      var k :| 0 <= k < |a + [op] + b| && (a + [op] + b)[k] == c;
      if k < |a| {
        assert a[k] == c;
      } else if k > |a| {
        assert b[k - |a| - 1] == c;
      }
    }
    if c in a {
      var k :| 0 <= k < |a| && a[k] == c;
      assert (a + [op] + b)[k] == c;
    }
    if c in b {
      var k :| 0 <= k < |b| && b[k] == c;
      assert (a + [op] + b)[|a| + 1 + k] == c;
    }
  }

  lemma InBracketed(c: char, a: string, op: char, b: string)
    requires !IsParen(c)
    ensures c in "(" + a + [op] + b + ")" <==> c == op || c in a || c in b
  {
    var m := a + [op] + b;
    InInfix(c, a, op, b);
    assert "(" + a + [op] + b + ")" == "(" + m + ")";
    if c in "(" + m + ")" {
      var k :| 0 <= k < |m| + 2 && ("(" + m + ")")[k] == c;
      assert m[k - 1] == c;
    }
    if c in m {
      var k :| 0 <= k < |m| && m[k] == c;
      assert ("(" + m + ")")[k + 1] == c;
    }
  }

  /** The rendering holds a `*` exactly when the tree has a product, and a `/`
      exactly when it has a quotient; simplifying keeps both facts. */
  lemma {:induction false} RenderOperators(t: Expr)
    ensures '*' in Render(t) <==> HasMul(t)
    ensures '/' in Render(t) <==> HasDiv(t)
    ensures '*' in Simplify(t) <==> HasMul(t)
    ensures '/' in Simplify(t) <==> HasDiv(t)
  {
    match t {
      case Num(n) =>
        DecimalOnlyDigits(n);
      case Add(l, r) =>
        RenderOperators(l);
        RenderOperators(r);
        InBracketed('*', Simplify(l), '+', Simplify(r));
        InBracketed('/', Simplify(l), '+', Simplify(r));
      case Sub(l, r) =>
        RenderOperators(l);
        RenderOperators(r);
        InBracketed('*', Simplify(l), '-', Simplify(r));
        InBracketed('/', Simplify(l), '-', Simplify(r));
      case Mul(l, r) =>
        RenderOperators(l);
        RenderOperators(r);
        InInfix('*', Render(l), '*', Render(r));
        InInfix('/', Render(l), '*', Render(r));
      case Div(l, r) =>
        RenderOperators(l);
        RenderOperators(r);
        InInfix('*', Render(l), '/', Render(r));
        InInfix('/', Render(l), '/', Render(r));
    }
    StripKeepsOthers(Render(t), '*');
    StripKeepsOthers(Render(t), '/');
  }

  /** Simplify strips brackets exactly from renderings of trees without `*`
      and `/`, and returns the others unchanged. */
  lemma SimplifyCases(t: Expr)
    ensures !HasMul(t) && !HasDiv(t) ==> '(' !in Simplify(t) && ')' !in Simplify(t)
    ensures HasMul(t) || HasDiv(t) ==> Simplify(t) == Render(t)
  {
    RenderOperators(t);
  }

  lemma StripInfix(a: string, op: char, b: string)
    requires !IsParen(op)
    ensures StripParens(a + [op] + b) == StripParens(a) + [op] + StripParens(b)
  {
    StripConcat(a + [op], b);
    StripConcat(a, [op]);
  }

  lemma StripBracketed(a: string, op: char, b: string)
    requires !IsParen(op)
    ensures StripParens("(" + a + [op] + b + ")") == StripParens(a) + [op] + StripParens(b)
  {
    assert "(" + a + [op] + b + ")" == "(" + (a + [op] + b) + ")";
    StripConcat("(" + (a + [op] + b), ")");
    StripConcat("(", a + [op] + b);
    StripInfix(a, op, b);
  }

  lemma SimplifyFlat(t: Expr)
    requires StripParens(Render(t)) == Flat(t)
    ensures StripParens(Simplify(t)) == Flat(t)
  {
    var d := Render(t);
    if '*' !in d && '/' !in d {
      StripWithoutParens(StripParens(d));
    }
  }

  /** Deleting every bracket from a rendering leaves the flat infix text, so
      the rendering lists the leaves and operators in tree order. */
  lemma {:induction false} RenderFlat(t: Expr)
    ensures StripParens(Render(t)) == Flat(t)
  {
    match t {
      case Num(n) =>
        DecimalOnlyDigits(n);
        StripWithoutParens(IntToString(n));
      case Add(l, r) =>
        RenderFlat(l);
        RenderFlat(r);
        SimplifyFlat(l);
        SimplifyFlat(r);
        StripBracketed(Simplify(l), '+', Simplify(r));
      case Sub(l, r) =>
        RenderFlat(l);
        RenderFlat(r);
        SimplifyFlat(l);
        SimplifyFlat(r);
        StripBracketed(Simplify(l), '-', Simplify(r));
      case Mul(l, r) =>
        RenderFlat(l);
        RenderFlat(r);
        StripInfix(Render(l), '*', Render(r));
      case Div(l, r) =>
        RenderFlat(l);
        RenderFlat(r);
        StripInfix(Render(l), '/', Render(r));
    }
  }

  /** Bracket depth after reading `s` from depth `d`; `None` if a `)` has no partner. */
  function Depth(s: string, d: nat): Option<nat>
  {
    if s == [] then Some(d)
    else if s[0] == '(' then Depth(s[1..], d + 1)
    else if s[0] == ')' then (if d == 0 then None else Depth(s[1..], d - 1))
    else Depth(s[1..], d)
  }

  predicate Balanced(s: string)
  {
    Depth(s, 0) == Some(0)
  }

  lemma {:induction false} DepthConcat(a: string, b: string, d: nat)
    ensures Depth(a + b, d) == match Depth(a, d) { case None => None case Some(e) => Depth(b, e) }
  {
    if a == [] {
      assert a + b == b;
    } else {
      assert (a + b)[0] == a[0] && (a + b)[1..] == a[1..] + b;
      if a[0] == '(' {
        DepthConcat(a[1..], b, d + 1);
      } else if a[0] == ')' {
        if d > 0 {
          DepthConcat(a[1..], b, d - 1);
        }
      } else {
        DepthConcat(a[1..], b, d);
      }
    }
  }

  lemma {:induction false} DepthShift(s: string, d: nat, e: nat)
    requires Depth(s, d) == Some(e)
    ensures Depth(s, d + 1) == Some(e + 1)
  {
    if s != [] {
      if s[0] == '(' {
        DepthShift(s[1..], d + 1, e);
      } else if s[0] == ')' {
        DepthShift(s[1..], d - 1, e);
      } else {
        DepthShift(s[1..], d, e);
      }
    }
  }

  lemma {:induction false} NoParensBalanced(s: string, d: nat)
    requires '(' !in s && ')' !in s
    ensures Depth(s, d) == Some(d)
  {
    if s != [] {
      assert s == [s[0]] + s[1..];
      NoParensBalanced(s[1..], d);
    }
  }

  lemma BalancedConcat(a: string, b: string)
    requires Balanced(a) && Balanced(b)
    ensures Balanced(a + b)
  {
    DepthConcat(a, b, 0);
  }

  lemma BalancedInfix(a: string, op: char, b: string)
    requires Balanced(a) && Balanced(b) && !IsParen(op)
    ensures Balanced(a + [op] + b)
  {
    NoParensBalanced([op], 0);
    BalancedConcat(a, [op]);
    BalancedConcat(a + [op], b);
  }

  lemma BalancedBracketed(a: string, op: char, b: string)
    requires Balanced(a) && Balanced(b) && !IsParen(op)
    ensures Balanced("(" + a + [op] + b + ")")
  {
    var m := a + [op] + b;
    BalancedInfix(a, op, b);
    DepthShift(m, 0, 0);
    DepthConcat(m, ")", 1);
    assert "(" + a + [op] + b + ")" == "(" + (m + ")");
    assert ("(" + (m + ")"))[1..] == m + ")";
  }

  lemma SimplifyBalanced(t: Expr)
    requires Balanced(Render(t))
    ensures Balanced(Simplify(t))
  {
    NoParensBalanced(StripParens(Render(t)), 0);
  }

  /** Every rendering has balanced brackets. */
  lemma {:induction false} RenderBalanced(t: Expr)
    ensures Balanced(Render(t))
  {
    match t {
      case Num(n) =>
        DecimalOnlyDigits(n);
        NoParensBalanced(IntToString(n), 0);
      case Add(l, r) =>
        RenderBalanced(l);
        RenderBalanced(r);
        SimplifyBalanced(l);
        SimplifyBalanced(r);
        BalancedBracketed(Simplify(l), '+', Simplify(r));
      case Sub(l, r) =>
        RenderBalanced(l);
        RenderBalanced(r);
        SimplifyBalanced(l);
        SimplifyBalanced(r);
        BalancedBracketed(Simplify(l), '-', Simplify(r));
      case Mul(l, r) =>
        RenderBalanced(l);
        RenderBalanced(r);
        BalancedInfix(Render(l), '*', Render(r));
      case Div(l, r) =>
        RenderBalanced(l);
        RenderBalanced(r);
        BalancedInfix(Render(l), '/', Render(r));
    }
  }

  lemma DigitLeaf(n: int)
    requires 0 <= n < 10
    ensures Render(Num(n)) == [DigitChar(n)] && Simplify(Num(n)) == [DigitChar(n)]
  {
    var c := DigitChar(n);
    assert Render(Num(n)) == [c];
    assert StripParens([c]) == [c] by {
      assert [c][1..] == [];
    }
  }

  /** A sum or difference of two digits simplifies to its unbracketed text. */
  lemma DigitPair(x: int, y: int)
    requires 0 <= x < 10 && 0 <= y < 10
    ensures Render(Add(Num(x), Num(y))) == "(" + [DigitChar(x)] + "+" + [DigitChar(y)] + ")"
    ensures Simplify(Add(Num(x), Num(y))) == [DigitChar(x)] + "+" + [DigitChar(y)]
    ensures Render(Sub(Num(x), Num(y))) == "(" + [DigitChar(x)] + "-" + [DigitChar(y)] + ")"
    ensures Simplify(Sub(Num(x), Num(y))) == [DigitChar(x)] + "-" + [DigitChar(y)]
  {
    DigitLeaf(x);
    DigitLeaf(y);
    RenderOperators(Add(Num(x), Num(y)));
    RenderOperators(Sub(Num(x), Num(y)));
    StripBracketed([DigitChar(x)], '+', [DigitChar(y)]);
    StripBracketed([DigitChar(x)], '-', [DigitChar(y)]);
  }

  /** `x - (y + z)` and `(x - y) + z` over digits print the same text. */
  lemma DigitTriples(x: int, y: int, z: int)
    requires 0 <= x < 10 && 0 <= y < 10 && 0 <= z < 10
    ensures Render(Sub(Num(x), Add(Num(y), Num(z)))) ==
      "(" + [DigitChar(x)] + "-" + [DigitChar(y)] + "+" + [DigitChar(z)] + ")"
    ensures Render(Add(Sub(Num(x), Num(y)), Num(z))) ==
      "(" + [DigitChar(x)] + "-" + [DigitChar(y)] + "+" + [DigitChar(z)] + ")"
  {
    DigitLeaf(x);
    DigitLeaf(z);
    DigitPair(y, z);
    DigitPair(x, y);
    var cx, cy, cz := [DigitChar(x)], [DigitChar(y)], [DigitChar(z)];
    assert Render(Sub(Num(x), Add(Num(y), Num(z)))) == "(" + cx + "-" + (cy + "+" + cz) + ")";
    assert Render(Add(Sub(Num(x), Num(y)), Num(z))) == "(" + (cx + "-" + cy) + "+" + cz + ")";
  }

  /** The rendering loses structure: for digits `x`, `y` and a non-zero
      digit `z`, `x - (y + z)` and `(x - y) + z` print the same text (for
      1, 2, 3 both print `(1-2+3)`) although their values differ. */
  lemma LossyRendering(x: int, y: int, z: int)
    requires 0 <= x < 10 && 0 <= y < 10 && 0 < z < 10
    ensures Render(Sub(Num(x), Add(Num(y), Num(z)))) == Render(Add(Sub(Num(x), Num(y)), Num(z)))
    ensures Eval(Sub(Num(x), Add(Num(y), Num(z)))) == Finite((x - y - z) as real)
    ensures Eval(Add(Sub(Num(x), Num(y)), Num(z))) == Finite((x - y + z) as real)
    ensures Eval(Sub(Num(x), Add(Num(y), Num(z)))) != Eval(Add(Sub(Num(x), Num(y)), Num(z)))
  {
    DigitTriples(x, y, z);
    var rx, ry, rz := x as real, y as real, z as real;
    assert Eval(Add(Num(y), Num(z))) == Finite(ry + rz);
    assert Eval(Sub(Num(x), Add(Num(y), Num(z)))) == Finite(rx + -(ry + rz));
    assert Eval(Sub(Num(x), Num(y))) == Finite(rx + -ry);
    assert Eval(Add(Sub(Num(x), Num(y)), Num(z))) == Finite((rx + -ry) + rz);
  }
}
