/**
 * The pieces of the JavaScript runtime that the visitor pipeline leans on:
 * numbers that are either integers or NaN, `String.prototype.split` with a
 * one-character separator, `String.prototype.trim` as a blank-row test,
 * `parseInt` with no radix, `Math.max`, and `Number(x.toFixed(2))` applied
 * to a quotient times 100.
 */
module JsRuntime {

  datatype Option<+T> = None | Some(value: T) {
    predicate IsFailure() { None? }

    function PropagateFailure<U>(): Option<U>
      requires None?
    {
      None
    }

    function Extract(): T
      requires Some?
    {
      value
    }
  }

  datatype Result<+T, +E> = Success(value: T) | Failure(error: E)

  /** A JS number as it arises in the pipeline: parseInt yields an integer or NaN,
      and the pipeline only adds such numbers. */
  datatype Num = NaN | Int(value: int)

  /** `a + b` on numbers: NaN absorbs. */
  function Add(a: Num, b: Num): Num
  {
    if a.Int? && b.Int? then Int(a.value + b.value) else NaN
  }

  /** `x || 0` on a number or `undefined`: NaN and 0 are falsy, so NaN becomes 0. */
  function Or0(x: Option<Num>): (r: Num)
    ensures r.Int?
    ensures x.Some? && x.value.Int? ==> r == x.value
    ensures x.None? || x.value.NaN? ==> r == Int(0)
  {
    match x
    case Some(Int(v)) => Int(v)
    case _ => Int(0)
  }

  lemma AddAssociative(a: Num, b: Num, c: Num)
    ensures Add(Add(a, b), c) == Add(a, Add(b, c))
  {
  }

  lemma AddCommutative(a: Num, b: Num)
    ensures Add(a, b) == Add(b, a)
  {
  }

  // ---------------------------------------------------------------------------
  // Characters and strings

  /** StrWhiteSpaceChar of ECMAScript: WhiteSpace (tab, VT, FF, ZWNBSP and the
      space separators of category Zs) and LineTerminator (LF, CR, LS, PS).
      This is the set `trim` removes and `parseInt` skips. */
  predicate IsWhitespace(c: char)
  {
    var n := c as int;
    n == 0x09 || n == 0x0A || n == 0x0B || n == 0x0C || n == 0x0D || n == 0x20 ||
    n == 0xA0 || n == 0x1680 || (0x2000 <= n <= 0x200A) || n == 0x2028 || n == 0x2029 ||
    n == 0x202F || n == 0x205F || n == 0x3000 || n == 0xFEFF
  }

  /** `s.trim()` is the empty string, i.e. `s.trim()` is falsy. */
  predicate IsBlank(s: string)
  {
    forall i :: 0 <= i < |s| ==> IsWhitespace(s[i])
  }

  predicate IsDecimalDigit(c: char)
  {
    '0' <= c <= '9'
  }

  function IndexOf(s: string, c: char): (i: nat)
    requires c in s
    ensures i < |s| && s[i] == c && c !in s[..i]
  {
    if s[0] == c then 0 else 1 + IndexOf(s[1..], c)
  }

  /** The index of a character is the position before which it does not occur. */
  lemma {:induction false} IndexOfFirst(s: string, c: char, k: nat)
    requires k < |s| && s[k] == c && c !in s[..k]
    ensures IndexOf(s, c) == k
  {
    if k > 0 {
      assert s[0] in s[..k];
      assert s[1..][..k - 1] == s[..k][1..];
      IndexOfFirst(s[1..], c, k - 1);
    }
  }

  /** `s.split(sep)` for a one-character separator: the pieces between separators,
      including empty ones at either end. */
  function Split(s: string, sep: char): (parts: seq<string>)
    ensures |parts| >= 1
    ensures forall i :: 0 <= i < |parts| ==> sep !in parts[i]
    decreases |s|
  {
    if sep !in s then [s]
    else
      var i := IndexOf(s, sep);
      [s[..i]] + Split(s[i + 1..], sep)
  }

  /** `parts.join(sep)`. */
  function Join(parts: seq<string>, sep: char): string
    requires |parts| >= 1
  {
    if |parts| == 1 then parts[0] else parts[0] + [sep] + Join(parts[1..], sep)
  }

  /** Splitting loses nothing: joining the pieces gives back the text. */
  lemma {:induction false} JoinSplit(s: string, sep: char)
    ensures Join(Split(s, sep), sep) == s
    decreases |s|
  {
    if sep in s {
      var i := IndexOf(s, sep);
      JoinSplit(s[i + 1..], sep);
      JoinSplitStep(s, sep);
    }
  }

  lemma JoinSplitStep(s: string, sep: char)
    requires sep in s
    requires Join(Split(s[IndexOf(s, sep) + 1..], sep), sep) == s[IndexOf(s, sep) + 1..]
    ensures Join(Split(s, sep), sep) == s
  {
    var i := IndexOf(s, sep);
    var a, b := s[..i], s[i + 1..];
    var rest := Split(b, sep);
    calc {
      Join(Split(s, sep), sep);
      Join([a] + rest, sep);
      { JoinCons(a, rest, sep); }
      a + [sep] + Join(rest, sep);
      a + [sep] + b;
      { Reassemble(s, i); }
      s;
    }
  }

  lemma Reassemble(s: string, i: nat)
    requires i < |s|
    ensures s == s[..i] + [s[i]] + s[i + 1..]
  {
  }

  lemma JoinCons(a: string, parts: seq<string>, sep: char)
    requires |parts| >= 1
    ensures Join([a] + parts, sep) == a + [sep] + Join(parts, sep)
  {
    assert ([a] + parts)[0] == a && ([a] + parts)[1..] == parts;
  }

  /** Pieces that hold no separator come back unchanged from a split of their join. */
  lemma {:induction false} SplitJoin(parts: seq<string>, sep: char)
    requires |parts| >= 1
    requires forall i :: 0 <= i < |parts| ==> sep !in parts[i]
    ensures Split(Join(parts, sep), sep) == parts
  {
    if |parts| > 1 {
      SplitJoin(parts[1..], sep);
      SplitJoinStep(parts, sep);
    } else {
      assert Join(parts, sep) == parts[0];
    }
  }

  lemma SplitJoinStep(parts: seq<string>, sep: char)
    requires |parts| > 1 && sep !in parts[0]
    requires Split(Join(parts[1..], sep), sep) == parts[1..]
    ensures Split(Join(parts, sep), sep) == parts
  {
    var rest := Join(parts[1..], sep);
    assert Join(parts, sep) == parts[0] + [sep] + rest;
    SplitAfterFirst(parts[0], sep, rest);
    assert [parts[0]] + parts[1..] == parts;
  }

  /** A piece without the separator, then the separator, splits off as the first part. */
  lemma SplitAfterFirst(a: string, sep: char, rest: string)
    requires sep !in a
    ensures Split(a + [sep] + rest, sep) == [a] + Split(rest, sep)
  {
    var s := a + [sep] + rest;
    assert s[|a|] == sep;
    assert s[..|a|] == a;
    IndexOfFirst(s, sep, |a|);
    assert s[|a| + 1..] == rest;
  }

  // ---------------------------------------------------------------------------
  // parseInt(string) with no radix argument

  function SkipWhitespace(s: string): (r: string)
    ensures |r| <= |s| && r == s[|s| - |r|..]
    ensures r == [] || !IsWhitespace(r[0])
    ensures forall i :: 0 <= i < |s| - |r| ==> IsWhitespace(s[i])
  {
    if s != [] && IsWhitespace(s[0]) then SkipWhitespace(s[1..]) else s
  }

  /** The value of `c` as a digit of the given radix (10 or 16), if it is one. */
  function DigitValue(c: char, radix: nat): (d: Option<nat>)
    requires radix == 10 || radix == 16
    ensures d.Some? ==> d.value < radix
  {
    if '0' <= c <= '9' then Some(c as nat - '0' as nat)
    else if radix == 16 && 'a' <= c <= 'f' then Some(c as nat - 'a' as nat + 10)
    else if radix == 16 && 'A' <= c <= 'F' then Some(c as nat - 'A' as nat + 10)
    else None
  }

  /** Length of the longest prefix of `s` made of radix digits. */
  function DigitPrefixLength(s: string, radix: nat): (n: nat)
    requires radix == 10 || radix == 16
    ensures n <= |s|
    ensures forall i :: 0 <= i < n ==> DigitValue(s[i], radix).Some?
    ensures n < |s| ==> DigitValue(s[n], radix).None?
  {
    if s == [] || DigitValue(s[0], radix).None? then 0 else 1 + DigitPrefixLength(s[1..], radix)
  }

  /** The mathematical value of a string of radix digits, most significant first. */
  function DigitsValue(s: string, radix: nat): nat
    requires radix == 10 || radix == 16
    requires forall i :: 0 <= i < |s| ==> DigitValue(s[i], radix).Some?
  {
    if s == [] then 0
    else DigitsValue(s[..|s| - 1], radix) * radix + DigitValue(s[|s| - 1], radix).value
  }

  /** The digits after the sign: a `0x`/`0X` prefix switches to radix 16, then the
      longest run of digits is read and what follows is ignored; no digit gives None. */
  function ParseMagnitude(u: string): Option<nat>
  {
    var hex := |u| >= 2 && u[0] == '0' && (u[1] == 'x' || u[1] == 'X');
    var radix := if hex then 16 else 10;
    var digits := if hex then u[2..] else u;
    var n := DigitPrefixLength(digits, radix);
    if n == 0 then None else Some(DigitsValue(digits[..n], radix))
  }

  /** After white space: an optional sign, then the magnitude; no digit gives NaN. */
  function ParseSigned(t: string): Num
  {
    var negative := t != [] && t[0] == '-';
    var u := if t != [] && (t[0] == '-' || t[0] == '+') then t[1..] else t;
    match ParseMagnitude(u)
    case None => NaN
    case Some(m) => Int(if negative then -(m as int) else m)
  }

  /** `parseInt(s)`: skip leading white space, then read a signed number. */
  function ParseInt(s: string): Num
  {
    ParseSigned(SkipWhitespace(s))
  }

  /** `parseInt(field)` where the field may be missing from the row (`undefined`,
      which parseInt reads as the string "undefined"). */
  function ParseIntField(field: Option<string>): (r: Num)
    ensures field.None? ==> r == NaN
  {
    match field
    case None =>
      assert SkipWhitespace("undefined") == "undefined";
      assert DigitPrefixLength("undefined", 10) == 0;
      ParseInt("undefined")
    case Some(s) => ParseInt(s)
  }

  /** Shortest decimal numeral of `n`. */
  function Decimal(n: nat): (s: string)
    ensures |s| >= 1
    ensures forall i :: 0 <= i < |s| ==> IsDecimalDigit(s[i])
    ensures s[0] == '0' ==> n == 0
  {
    if n < 10 then [('0' as int + n) as char] else Decimal(n / 10) + [('0' as int + n % 10) as char]
  }

  lemma {:induction false} DecimalValue(n: nat)
    ensures forall i :: 0 <= i < |Decimal(n)| ==> DigitValue(Decimal(n)[i], 10).Some?
    ensures DigitsValue(Decimal(n), 10) == n
  {
    var s := Decimal(n);
    assert forall i :: 0 <= i < |s| ==> DigitValue(s[i], 10).Some? by {
      forall i | 0 <= i < |s| ensures DigitValue(s[i], 10).Some? {
        assert IsDecimalDigit(s[i]);
      }
    }
    if n >= 10 {
      DecimalValue(n / 10);
      assert s[..|s| - 1] == Decimal(n / 10);
    }
  }

  lemma {:induction false} DigitPrefixOfDigits(digits: string, rest: string, radix: nat)
    requires radix == 10 || radix == 16
    requires forall i :: 0 <= i < |digits| ==> DigitValue(digits[i], radix).Some?
    requires rest == [] || DigitValue(rest[0], radix).None?
    ensures DigitPrefixLength(digits + rest, radix) == |digits|
    ensures (digits + rest)[..|digits|] == digits
  {
    if digits == [] {
      assert digits + rest == rest;
    } else {
      assert (digits + rest)[0] == digits[0];
      assert (digits + rest)[1..] == digits[1..] + rest;
      DigitPrefixOfDigits(digits[1..], rest, radix);
    }
  }

  /** The magnitude reader takes back a decimal numeral followed by non-digit text
      (except an `x` after a lone `0`, which would switch to radix 16). */
  lemma MagnitudeOfDecimal(n: nat, rest: string)
    requires rest == [] || (!IsDecimalDigit(rest[0]) && !(n == 0 && (rest[0] == 'x' || rest[0] == 'X')))
    ensures ParseMagnitude(Decimal(n) + rest) == Some(n)
  {
    var d := Decimal(n);
    var u := d + rest;
    if |u| >= 2 && u[0] == '0' {
      assert d[0] == '0';
      assert |d| == 1;
      assert u[1] == rest[0];
    }
    DecimalValue(n);
    assert rest == [] || DigitValue(rest[0], 10).None?;
    DigitPrefixOfDigits(d, rest, 10);
  }

  lemma ConcatAssociative(a: string, b: string, c: string, e: string)
    ensures a + b + c + e == a + (b + (c + e))
  {
  }

  /** Leading white space does not change what parseInt reads. */
  lemma ParseIntSkipsBlank(ws: string, body: string)
    requires IsBlank(ws)
    requires body == [] || !IsWhitespace(body[0])
    ensures ParseInt(ws + body) == ParseInt(body)
  {
    SkipBlankPrefix(ws, body);
    assert SkipWhitespace(body) == body;
  }

  /** parseInt reads back the decimal numeral of any natural number, whatever
      white space precedes it and whatever non-digit text follows it. */
  lemma ParseIntDecimal(ws: string, n: nat, rest: string)
    requires IsBlank(ws)
    requires rest == [] || (!IsDecimalDigit(rest[0]) && !(n == 0 && (rest[0] == 'x' || rest[0] == 'X')))
    ensures ParseInt(ws + Decimal(n) + rest) == Int(n)
  {
    var d := Decimal(n);
    var u := d + rest;
    assert ws + d + rest == ws + u;
    assert u[0] == d[0];
    MagnitudeOfDecimal(n, rest);
    ParseIntUnsigned(ws, u, n);
  }

  lemma ParseIntUnsigned(ws: string, u: string, n: nat)
    requires IsBlank(ws)
    requires u != [] && IsDecimalDigit(u[0])
    requires ParseMagnitude(u) == Some(n)
    ensures ParseInt(ws + u) == Int(n)
  {
    SkipBlankPrefix(ws, u);
    ParseSignedUnsigned(u, n);
  }

  lemma ParseSignedUnsigned(u: string, n: nat)
    requires u != [] && IsDecimalDigit(u[0])
    requires ParseMagnitude(u) == Some(n)
    ensures ParseSigned(u) == Int(n)
  {
    assert u[0] != '-' && u[0] != '+';
  }

  /** A minus sign before the numeral negates the value parseInt reads. */
  lemma ParseIntNegativeDecimal(ws: string, n: nat, rest: string)
    requires IsBlank(ws)
    requires rest == [] || (!IsDecimalDigit(rest[0]) && !(n == 0 && (rest[0] == 'x' || rest[0] == 'X')))
    ensures ParseInt(ws + "-" + Decimal(n) + rest) == Int(-(n as int))
  {
    var d := Decimal(n);
    var u := d + rest;
    MagnitudeOfDecimal(n, rest);
    var body := "-" + u;
    ConcatAssociative(ws, "-", d, rest);
    assert SkipWhitespace(ws + body) == body by {
      SkipBlankPrefix(ws, body);
    }
    ParseSignedNegative(u, n);
  }

  lemma ParseSignedNegative(u: string, n: nat)
    requires ParseMagnitude(u) == Some(n)
    ensures ParseSigned("-" + u) == Int(-(n as int))
  {
    var t := "-" + u;
    assert t != [] && t[0] == '-' && t[1..] == u;
  }

  lemma {:induction false} SkipBlankPrefix(ws: string, s: string)
    requires IsBlank(ws)
    requires s == [] || !IsWhitespace(s[0])
    ensures SkipWhitespace(ws + s) == s
  {
    if ws != [] {
      assert (ws + s)[1..] == ws[1..] + s;
      SkipBlankPrefix(ws[1..], s);
    } else {
      assert ws + s == s;
    }
  }

  // ---------------------------------------------------------------------------
  // Math.max(...xs)

  /** `Math.max(...xs)` on a non-empty list: NaN if any argument is NaN, else the largest. */
  function MaxNum(xs: seq<Num>): (r: Num)
    requires |xs| > 0
    ensures r.NaN? <==> exists i :: 0 <= i < |xs| && xs[i].NaN?
    ensures r.Int? ==> r in xs && forall i :: 0 <= i < |xs| ==> xs[i].value <= r.value
  {
    if |xs| == 1 then xs[0]
    else
      var m := MaxNum(xs[1..]);
      if xs[0].NaN? || m.NaN? then NaN
      else if xs[0].value >= m.value then xs[0] else m
  }

  // ---------------------------------------------------------------------------
  // Number(((num / den) * 100).toFixed(2))

  /** The value of `Number(x.toFixed(2))` for a number `x` that is a quotient times 100. */
  datatype Rate = RateNaN | RateInfinite(negative: bool) | RateValue(hundredths: int)

  /** `10000 * n / d` rounded to the nearest integer, exact halves away from zero:
      toFixed rounds the magnitude and picks the larger candidate on a tie. */
  function RoundHundredths(n: int, d: int): (r: int)
    requires d != 0
    ensures var num := if d > 0 then n else -n;
            var den := if d > 0 then d else -d;
            (num >= 0 ==> 2 * r * den - den <= 20000 * num < 2 * r * den + den) &&
            (num < 0 ==> 2 * r * den - den < 20000 * num <= 2 * r * den + den)
  {
    var num := if d > 0 then n else -n;
    var den := if d > 0 then d else -d;
    if num >= 0 then (20000 * num + den) / (2 * den)
    else -((-20000 * num + den) / (2 * den))
  }

  /** `Number(((num / den) * 100).toFixed(2))`, as hundredths: NaN in, or 0 / 0, gives NaN;
      a non-zero quotient by 0 gives an infinity; otherwise the rounded percentage. */
  function Ratio100(num: Num, den: Num): (r: Rate)
    ensures r.RateNaN? <==> num.NaN? || den.NaN? || (num == Int(0) && den == Int(0))
    ensures r.RateInfinite? <==> num.Int? && den == Int(0) && num.value != 0
    ensures r.RateInfinite? ==> r.negative == (num.value < 0)
    ensures r.RateValue? ==> num.Int? && den.Int? && den.value != 0
  {
    if num.NaN? || den.NaN? then RateNaN
    else if den.value == 0 then
      (if num.value == 0 then RateNaN else RateInfinite(num.value < 0))
    else RateValue(RoundHundredths(num.value, den.value))
  }

  lemma FactorOrder(a: int, b: int, c: int)
    requires c > 0
    ensures a * c <= b * c ==> a <= b
    ensures a * c < b * c ==> a < b
  {
    if a > b {
      assert a * c - b * c == (a - b) * c;
    }
    if a >= b {
      assert a * c - b * c == (a - b) * c;
    }
  }

  /** A share of a non-negative whole lies between 0.00 and 100.00, and the whole
      itself is exactly 100.00. */
  lemma Ratio100Bounds(num: int, den: int)
    requires 0 <= num <= den && den > 0
    ensures Ratio100(Int(num), Int(den)).RateValue?
    ensures 0 <= Ratio100(Int(num), Int(den)).hundredths <= 10000
    ensures num == den ==> Ratio100(Int(num), Int(den)) == RateValue(10000)
  {
    var r := RoundHundredths(num, den);
    assert (2 * r - 1) * den <= 20000 * num < (2 * r + 1) * den;
    FactorOrder(0, 2 * r + 1, den);
    assert 20000 * num <= 20000 * den;
    FactorOrder(2 * r - 1, 20000, den);
    if num == den {
      FactorOrder(20000, 2 * r + 1, den);
    }
  }

  // ---------------------------------------------------------------------------
  // Array.prototype.filter and a reduce that adds

  /** `s.filter(p)`: the elements that pass, in their order. */
  function Filter<T(!new)>(s: seq<T>, p: T -> bool): (r: seq<T>)
    ensures |r| <= |s|
    ensures forall x :: x in r <==> x in s && p(x)
  {
    if s == [] then [] else (if p(s[0]) then [s[0]] else []) + Filter(s[1..], p)
  }

  /** Filtering commutes with concatenation, so relative order is kept. */
  lemma {:induction false} FilterConcat<T(!new)>(a: seq<T>, b: seq<T>, p: T -> bool)
    ensures Filter(a + b, p) == Filter(a, p) + Filter(b, p)
  {
    if a != [] {
      var x, rest := a[0], a[1..];
      assert a == [x] + rest;
      assert a + b == [x] + (rest + b);
      FilterCons(x, rest + b, p);
      FilterCons(x, rest, p);
      FilterConcat(rest, b, p);
    } else {
      assert a + b == b;
    }
  }

  lemma FilterCons<T(!new)>(x: T, s: seq<T>, p: T -> bool)
    ensures Filter([x] + s, p) == (if p(x) then [x] else []) + Filter(s, p)
  {
    assert ([x] + s)[0] == x && ([x] + s)[1..] == s;
  }

  /** `map`: one result per element, in order. */
  function Map<A, B>(s: seq<A>, f: A -> B): (r: seq<B>)
    ensures |r| == |s|
  {
    seq(|s|, i requires 0 <= i < |s| => f(s[i]))
  }

  /** Mapping commutes with concatenation. */
  lemma MapConcat<A, B>(a: seq<A>, b: seq<A>, f: A -> B)
    ensures Map(a + b, f) == Map(a, f) + Map(b, f)
  {
    forall i | 0 <= i < |a| + |b| ensures Map(a + b, f)[i] == (Map(a, f) + Map(b, f))[i] {
      if i >= |a| { assert (a + b)[i] == b[i - |a|]; }
    }
  }

  /** Filtering again with the same test removes nothing more. */
  lemma {:induction false} FilterIdempotent<T(!new)>(s: seq<T>, p: T -> bool)
    ensures Filter(Filter(s, p), p) == Filter(s, p)
  {
    if s != [] {
      FilterIdempotent(s[1..], p);
      if p(s[0]) {
        assert ([s[0]] + Filter(s[1..], p))[0] == s[0];
        assert ([s[0]] + Filter(s[1..], p))[1..] == Filter(s[1..], p);
      } else {
        assert [] + Filter(s[1..], p) == Filter(s[1..], p);
      }
    }
  }

  /** `xs.reduce((sum, x) => sum + x, 0)`. */
  function SumNums(xs: seq<Num>): Num
  {
    if xs == [] then Int(0) else Add(SumNums(xs[..|xs| - 1]), xs[|xs| - 1])
  }

  /** Summing a concatenation adds the two sums. */
  lemma {:induction false} SumNumsConcat(a: seq<Num>, b: seq<Num>)
    ensures SumNums(a + b) == Add(SumNums(a), SumNums(b))
    decreases |b|
  {
    if b == [] {
      assert a + b == a;
    } else {
      assert (a + b)[..|a + b| - 1] == a + b[..|b| - 1];
      SumNumsConcat(a, b[..|b| - 1]);
    }
  }

  /** The sum is NaN exactly when some term is. */
  lemma {:induction false} SumNumsNaN(xs: seq<Num>)
    ensures SumNums(xs).NaN? <==> exists i :: 0 <= i < |xs| && xs[i].NaN?
  {
    if xs != [] {
      SumNumsNaN(xs[..|xs| - 1]);
      if SumNums(xs[..|xs| - 1]).NaN? {
        var i :| 0 <= i < |xs| - 1 && xs[..|xs| - 1][i].NaN?;
        assert xs[i].NaN?;
      }
    }
  }

  /** A sum of non-negative numbers is a non-negative number. */
  lemma {:induction false} SumNumsNonNegative(xs: seq<Num>)
    requires forall i :: 0 <= i < |xs| ==> xs[i].Int? && xs[i].value >= 0
    ensures SumNums(xs).Int? && SumNums(xs).value >= 0
  {
    if xs != [] {
      SumNumsNonNegative(xs[..|xs| - 1]);
    }
  }

  /** Every number of the list is 0. */
  predicate AllZero(xs: seq<Num>)
  {
    forall i :: 0 <= i < |xs| ==> xs[i] == Int(0)
  }

  /** One more term is all zeros exactly when the others are and it is 0. */
  lemma AllZeroSnoc(xs: seq<Num>, x: Num)
    ensures AllZero(xs + [x]) <==> AllZero(xs) && x == Int(0)
  {
    if AllZero(xs + [x]) {
      assert forall i :: 0 <= i < |xs| ==> xs[i] == (xs + [x])[i];
      assert (xs + [x])[|xs|] == x;
    }
  }

  /** A list with its `k`th number replaced is all zeros exactly when the rest are and
      the new number is 0. */
  lemma AllZeroUpdate(xs: seq<Num>, k: nat, y: Num)
    requires k < |xs|
    ensures AllZero(xs[k := y]) <==> AllZero(xs[k := Int(0)]) && y == Int(0)
  {
    var zeroed, updated := xs[k := Int(0)], xs[k := y];
    assert forall i :: 0 <= i < |xs| && i != k ==> zeroed[i] == updated[i];
    assert updated[k] == y && zeroed[k] == Int(0);
  }

  /** A sum of non-negative numbers is 0 exactly when every term is 0. */
  lemma {:induction false} SumNumsZero(xs: seq<Num>)
    requires forall i :: 0 <= i < |xs| ==> xs[i].Int? && xs[i].value >= 0
    ensures SumNums(xs) == Int(0) <==> AllZero(xs)
  {
    if xs != [] {
      var init := xs[..|xs| - 1];
      assert forall i :: 0 <= i < |init| ==> init[i] == xs[i];
      SumNumsZero(init);
      SumNumsNonNegative(init);
      AllZeroSnoc(init, xs[|xs| - 1]);
      assert xs == init + [xs[|xs| - 1]];
    }
  }

  /** The largest of non-negative numbers is 0 exactly when every one of them is 0. */
  lemma MaxNumZero(xs: seq<Num>)
    requires |xs| > 0 && forall i :: 0 <= i < |xs| ==> xs[i].Int? && xs[i].value >= 0
    ensures MaxNum(xs) == Int(0) <==> AllZero(xs)
  {
    var m := MaxNum(xs);
    assert m.Int? && m in xs;
  }
}
