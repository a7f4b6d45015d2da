/** Decimal text: rendering integers the way `Display` for `i32` does, parsing
    tokens the way `str::parse::<i32>` and `str::parse::<usize>` do, and the
    `'|'`-separated dice list that the user interface sends. */
module Decimal {
  import opened Seqs

  const I32Min: int := -0x8000_0000
  const I32Max: int := 0x7fff_ffff
  const UsizeMax: int := 0xffff_ffff_ffff_ffff

  predicate InI32(n: int) { I32Min <= n <= I32Max }

  predicate IsDigit(c: char) { '0' <= c <= '9' }

  predicate AllDigits(s: string) { forall k :: 0 <= k < |s| ==> IsDigit(s[k]) }

  function DigitChar(d: nat): (c: char)
    requires d < 10
    ensures IsDigit(c) && c as int - '0' as int == d
  {
    (d + '0' as int) as char
  }

  /** Decimal digits of `n`, most significant first, without leading zeros. */
  function NatDigits(n: nat): (s: string)
    ensures |s| >= 1 && AllDigits(s)
    ensures |s| > 1 ==> s[0] != '0'
  {
    if n < 10 then [DigitChar(n)] else NatDigits(n / 10) + [DigitChar(n % 10)]
  }

  /** The number a string of decimal digits denotes. */
  function DigitsValue(s: string): nat
    requires AllDigits(s)
  {
    if s == [] then 0 else 10 * DigitsValue(s[..|s| - 1]) + (s[|s| - 1] as int - '0' as int)
  }

  lemma {:induction false} DigitsRoundTrip(n: nat)
    ensures DigitsValue(NatDigits(n)) == n
  {
    if n >= 10 {
      DigitsRoundTrip(n / 10);
      var s := NatDigits(n);
      assert s[..|s| - 1] == NatDigits(n / 10);
    }
  }

  /** `format!("{}", n)` for an integer: an optional minus sign and the digits. */
  function IntToString(n: int): (s: string)
    ensures |s| >= 1
    ensures forall k :: 0 <= k < |s| ==> IsDigit(s[k]) || s[k] == '-'
  {
    if n < 0 then "-" + NatDigits(-n) else NatDigits(n)
  }

  /** Sign and digits of a token, as the standard integer parser reads them;
      `allowMinus` is false for unsigned targets. */
  function SignedValue(tok: string, allowMinus: bool): Option<int>
  {
    var neg := allowMinus && |tok| > 0 && tok[0] == '-';
    var digits := if |tok| > 0 && (tok[0] == '+' || neg) then tok[1..] else tok;
    if digits == [] || !AllDigits(digits) then None
    else
      var v: int := DigitsValue(digits);
      Some(if neg then -v else v)
  }

  /** `tok.parse::<i32>()`: `None` for an empty, malformed or out-of-range token. */
  function ParseI32(tok: string): (r: Option<int>)
    ensures r.Some? ==> InI32(r.value)
  {
    match SignedValue(tok, true)
    case Some(v) => if InI32(v) then Some(v) else None
    case None => None
  }

  /** `tok.parse::<usize>()` on a 64-bit target. */
  function ParseUsize(tok: string): (r: Option<nat>)
    ensures r.Some? ==> r.value <= UsizeMax
  {
    match SignedValue(tok, false)
    case Some(v) => if 0 <= v <= UsizeMax then Some(v) else None
    case None => None
  }

  /** Every `i32` survives being printed and parsed back. */
  lemma ParseI32RoundTrip(n: int)
    requires InI32(n)
    ensures ParseI32(IntToString(n)) == Some(n)
  {
    DigitsRoundTrip(if n < 0 then -n else n);
    var s := IntToString(n);
    if n < 0 {
      assert s[1..] == NatDigits(-n);
    }
  }

  /** Every `usize` printed in decimal parses back to itself. */
  lemma ParseUsizeRoundTrip(n: nat)
    requires n <= UsizeMax
    ensures ParseUsize(NatDigits(n)) == Some(n)
  {
    DigitsRoundTrip(n);
  }

  /** `s.split("|")`: the pieces between separators, empty pieces included. */
  function Split(s: string): (r: seq<string>)
    ensures |r| >= 1
    ensures forall k :: 0 <= k < |r| ==> '|' !in r[k]
  {
    if s == [] then [[]]
    else
      var t := Split(s[1..]);
      if s[0] == '|' then [[]] + t else [[s[0]] + t[0]] + t[1..]
  }

  /** `toks.join("|")`. */
  function Join(toks: seq<string>): string
  {
    if |toks| == 0 then ""
    else if |toks| == 1 then toks[0]
    else toks[0] + "|" + Join(toks[1..])
  }

  lemma {:induction false} JoinSplit(s: string)
    ensures Join(Split(s)) == s
  {
    if s != [] {
      JoinSplit(s[1..]);
      var t := Split(s[1..]);
      if s[0] != '|' {
        assert Split(s)[1..] == t[1..];
        if |t| > 1 {
          assert t == [t[0]] + t[1..];
        }
      }
    }
  }

  /** One step of `Split`: a leading character either starts a new piece or
      joins the first piece. */
  lemma SplitCons(c: char, s: string)
    ensures Split([c] + s) ==
      if c == '|' then [[]] + Split(s) else [[c] + Split(s)[0]] + Split(s)[1..]
  {
    assert ([c] + s)[0] == c && ([c] + s)[1..] == s;
  }

  lemma SplitConcatNil(b: string)
    ensures Split([] + "|" + b) == Split([]) + Split(b)
  {
    assert [] + "|" + b == ['|'] + b;
    SplitCons('|', b);
  }

  lemma SplitConcatCons(c: char, a': string, b: string)
    requires Split(a' + "|" + b) == Split(a') + Split(b)
    ensures Split([c] + a' + "|" + b) == Split([c] + a') + Split(b)
  {
    var rest := a' + "|" + b;
    assert [c] + a' + "|" + b == [c] + rest;
    if c == '|' {
      SplitConsSeparator(rest, Split(a'), Split(b));
      SplitCons(c, a');
    } else {
      SplitConsChar(c, rest, Split(a'), Split(b));
      SplitCons(c, a');
    }
  }

  lemma SplitConsSeparator(rest: string, t: seq<string>, u: seq<string>)
    requires Split(rest) == t + u
    ensures Split(['|'] + rest) == ([[]] + t) + u
  {
    SplitCons('|', rest);
  }

  lemma SplitConsChar(c: char, rest: string, t: seq<string>, u: seq<string>)
    requires c != '|' && |t| >= 1 && Split(rest) == t + u
    ensures Split([c] + rest) == ([[c] + t[0]] + t[1..]) + u
  {
    SplitCons(c, rest);
    var x := Split(rest);
    assert x[0] == t[0];
    assert x[1..] == t[1..] + u;
  }

  lemma {:induction false} SplitConcat(a: string, b: string)
    ensures Split(a + "|" + b) == Split(a) + Split(b)
    decreases |a|
  {
    if a == [] {
      SplitConcatNil(b);
    } else {
      assert a == [a[0]] + a[1..];
      SplitConcat(a[1..], b);
      SplitConcatCons(a[0], a[1..], b);
    }
  }

  lemma {:induction false} SplitSingle(a: string)
    requires '|' !in a
    ensures Split(a) == [a]
  {
    if a != [] {
      SplitSingle(a[1..]);
      assert [a[0]] + a[1..] == a;
    }
  }

  /** Splitting undoes joining pieces that hold no separator. */
  lemma {:induction false} SplitJoin(toks: seq<string>)
    requires |toks| >= 1
    requires forall k :: 0 <= k < |toks| ==> '|' !in toks[k]
    ensures Split(Join(toks)) == toks
  {
    if |toks| == 1 {
      SplitSingle(toks[0]);
    } else {
      SplitJoin(toks[1..]);
      SplitConcat(toks[0], Join(toks[1..]));
      SplitSingle(toks[0]);
      assert toks == [toks[0]] + toks[1..];
    }
  }

  /** The values of the tokens that parse, in order; the others are dropped. */
  function KeepParsed(toks: seq<string>): (r: seq<int>)
    ensures |r| <= |toks|
    ensures forall k :: 0 <= k < |r| ==> InI32(r[k])
  {
    if toks == [] then []
    else
      match ParseI32(toks[0])
      case Some(v) => [v] + KeepParsed(toks[1..])
      case None => KeepParsed(toks[1..])
  }

  /** The dice list read from `input_d6.split("|").filter_map(parse)`. */
  function ParseDice(s: string): seq<int>
  {
    KeepParsed(Split(s))
  }

  lemma {:induction false} KeepParsedConcat(x: seq<string>, y: seq<string>)
    ensures KeepParsed(x + y) == KeepParsed(x) + KeepParsed(y)
  {
    if x == [] {
      assert x + y == y;
    } else {
      assert (x + y)[1..] == x[1..] + y;
      KeepParsedConcat(x[1..], y);
    }
  }

  /** Parsing works piece by piece across a separator. */
  lemma ParseDiceConcat(a: string, b: string)
    ensures ParseDice(a + "|" + b) == ParseDice(a) + ParseDice(b)
  {
    SplitConcat(a, b);
    KeepParsedConcat(Split(a), Split(b));
  }

  /** A single token that does not parse gives no dice. */
  lemma MalformedTokenAlone(junk: string)
    requires '|' !in junk && ParseI32(junk) == None
    ensures ParseDice(junk) == []
  {
    SplitSingle(junk);
    assert [junk][1..] == [];
  }

  /** A malformed or empty token between separators contributes nothing. */
  lemma MalformedTokenDropped(a: string, junk: string, b: string)
    requires '|' !in junk && ParseI32(junk) == None
    ensures ParseDice(a + "|" + junk + "|" + b) == ParseDice(a + "|" + b)
  {
    var jb := junk + "|" + b;
    assert a + "|" + junk + "|" + b == a + "|" + jb;
    ParseDiceConcat(a, jb);
    ParseDiceConcat(junk, b);
    MalformedTokenAlone(junk);
    assert ParseDice(jb) == ParseDice(b);
    ParseDiceConcat(a, b);
  }

  /** The decimal form of each value, as the user interface prints them. */
  function Decimals(xs: seq<int>): (r: seq<string>)
    ensures |r| == |xs|
    ensures forall k :: 0 <= k < |xs| ==> r[k] == IntToString(xs[k])
  {
    if xs == [] then [] else [IntToString(xs[0])] + Decimals(xs[1..])
  }

  lemma {:induction false} KeepParsedDecimals(xs: seq<int>)
    requires forall k :: 0 <= k < |xs| ==> InI32(xs[k])
    ensures KeepParsed(Decimals(xs)) == xs
  {
    if xs != [] {
      ParseI32RoundTrip(xs[0]);
      assert Decimals(xs)[1..] == Decimals(xs[1..]);
      KeepParsedDecimals(xs[1..]);
    }
  }

  lemma NoSeparatorInDecimal(n: int)
    ensures '|' !in IntToString(n)
  {
  }

  /** Reading back a list sent as `values.join("|")` gives the list itself. */
  lemma ParseJoinedDice(xs: seq<int>)
    requires forall k :: 0 <= k < |xs| ==> InI32(xs[k])
    ensures ParseDice(Join(Decimals(xs))) == xs
  {
    var toks := Decimals(xs);
    KeepParsedDecimals(xs);
    if xs == [] {
      assert Join(toks) == "";
      assert Split("") == [""];
      assert ParseI32("") == None;
    } else {
      forall k | 0 <= k < |toks| ensures '|' !in toks[k] {
        NoSeparatorInDecimal(xs[k]);
      }
      SplitJoin(toks);
      assert Split(Join(toks)) == toks;
    }
  }
}
