/**
 * Small building blocks shared by the whole model: an Option type, filtering
 * of sequences (the SQL `WHERE` of the scopes), and the few string notions the
 * application relies on (Ruby's `blank?`, substring search, ASCII case folding).
 */
module Basics {

  datatype Option<T> = None | Some(value: T)

  // ---------------------------------------------------------------- strings

  /** Whitespace as Ruby's `String#blank?` sees it (the ASCII part of it). */
  predicate IsSpace(c: char) {
    c == ' ' || c == '\t' || c == '\n' || c == '\r' || c as int == 11 || c as int == 12
  }

  /** `blank?` for strings; a missing (nil) string is modelled as "". */
  predicate Blank(s: string) {
    forall i :: 0 <= i < |s| ==> IsSpace(s[i])
  }

  /** `present?` */
  predicate Present(s: string) {
    !Blank(s)
  }

  /** `presence`: the string itself when present, nil otherwise. */
  function Presence(s: string): (r: Option<string>)
    ensures r.Some? <==> Present(s)
    ensures r.Some? ==> r.value == s
  {
    if Present(s) then Some(s) else None
  }

  predicate IsPrefixOf(p: string, s: string) {
    |p| <= |s| && s[..|p|] == p
  }

  /** `s.include?(sub)`: sub occurs somewhere in s. */
  predicate Contains(s: string, sub: string)
    decreases |s|
  {
    IsPrefixOf(sub, s) || (|s| > 0 && Contains(s[1..], sub))
  }

  /** Contains agrees with the usual "some suffix starts with sub". */
  lemma {:induction false} ContainsAt(s: string, sub: string)
    ensures Contains(s, sub) <==> exists k :: 0 <= k <= |s| && IsPrefixOf(sub, s[k..])
    decreases |s|
  {
    if Contains(s, sub) {
      if !IsPrefixOf(sub, s) {
        ContainsAt(s[1..], sub);
        var k :| 0 <= k <= |s[1..]| && IsPrefixOf(sub, s[1..][k..]);
        assert s[1..][k..] == s[k + 1..];
      } else {
        assert s[0..] == s;
      }
    }
    if exists k :: 0 <= k <= |s| && IsPrefixOf(sub, s[k..]) {
      var k :| 0 <= k <= |s| && IsPrefixOf(sub, s[k..]);
      if k == 0 {
        assert s[0..] == s;
      } else {
        assert s[1..][k - 1..] == s[k..];
        ContainsAt(s[1..], sub);
      }
    }
  }

  /** A string that lacks some character of `sub` does not contain `sub`. */
  lemma {:induction false} MissingCharExcludes(s: string, sub: string, i: nat)
    requires i < |sub| && sub[i] !in s
    ensures !Contains(s, sub)
    decreases |s|
  {
    if |s| > 0 {
      assert sub[i] !in s[1..];
      MissingCharExcludes(s[1..], sub, i);
    }
  }

  function LowerChar(c: char): char {
    if 'A' <= c <= 'Z' then (c as int + 32) as char else c
  }

  /** ASCII `downcase`. */
  function Lower(s: string): (r: string)
    ensures |r| == |s|
    ensures forall i :: 0 <= i < |s| ==> r[i] == LowerChar(s[i])
  {
    if s == [] then [] else [LowerChar(s[0])] + Lower(s[1..])
  }

  lemma {:induction false} LowerAppend(a: string, b: string)
    ensures Lower(a + b) == Lower(a) + Lower(b)
  {
    var l, r := Lower(a + b), Lower(a) + Lower(b);
    assert |l| == |r|;
    forall i | 0 <= i < |l| ensures l[i] == r[i] {
      if i < |a| { assert (a + b)[i] == a[i]; } else { assert (a + b)[i] == b[i - |a|]; }
    }
  }

  // ----------------------------------------------------------------- numbers

  predicate IsDigit(c: char) {
    '0' <= c <= '9'
  }

  predicate AllDigits(s: string) {
    forall i :: 0 <= i < |s| ==> IsDigit(s[i])
  }

  function DigitChar(n: nat): (c: char)
    requires n < 10
    ensures IsDigit(c) && c as int - '0' as int == n
  {
    ('0' as int + n) as char
  }

  /** `Integer#to_s` for a natural number: its decimal digits, no leading zero. */
  function NatText(n: nat): (s: string)
    ensures |s| >= 1 && AllDigits(s)
    decreases n
  {
    if n < 10 then [DigitChar(n)] else NatText(n / 10) + [DigitChar(n % 10)]
  }

  /** `Integer#to_s`. */
  function IntText(n: int): (s: string)
    ensures |s| >= 1
  {
    if n < 0 then "-" + NatText(-n) else NatText(n)
  }

  /** The number a string of decimal digits denotes. */
  function DigitsValue(s: string): (n: nat)
    requires AllDigits(s)
  {
    if s == [] then 0 else DigitsValue(s[..|s| - 1]) * 10 + (s[|s| - 1] as int - '0' as int)
  }

  /** Reading back the digits of a number gives the number. */
  lemma {:induction false} DigitsValueOfNatText(n: nat)
    ensures DigitsValue(NatText(n)) == n
    decreases n
  {
    if n >= 10 {
      var s := NatText(n);
      assert s[..|s| - 1] == NatText(n / 10);
      DigitsValueOfNatText(n / 10);
    }
  }

  /** The string without its leading whitespace, which `String#to_i` skips. */
  function TrimStart(s: string): (r: string)
    ensures |r| <= |s| && r == s[|s| - |r|..]
    ensures Blank(s[..|s| - |r|])
    ensures r != [] ==> !IsSpace(r[0])
  {
    if s != [] && IsSpace(s[0]) then
      var r := TrimStart(s[1..]);
      assert s[..|s| - |r|] == [s[0]] + s[1..][..|s[1..]| - |r|];
      r
    else s
  }

  /**
   * The digits of the numeral a string starts with. `String#to_i` reads digits
   * and lets a single underscore stand between two of them ("1_000").
   */
  function NumeralDigits(s: string): (r: string)
    ensures AllDigits(r)
    ensures r != [] <==> s != [] && IsDigit(s[0])
  {
    if s == [] || !IsDigit(s[0]) then []
    else if |s| >= 3 && s[1] == '_' && IsDigit(s[2]) then [s[0]] + NumeralDigits(s[2..])
    else [s[0]] + NumeralDigits(s[1..])
  }

  /**
   * `/\A\s*[+-]?\d/`, the test Rails' integer type applies before casting a
   * string: after whitespace and an optional sign comes a digit.
   */
  predicate NumericStart(s: string) {
    var t := TrimStart(s);
    (t != [] && IsDigit(t[0])) || (|t| >= 2 && (t[0] == '+' || t[0] == '-') && IsDigit(t[1]))
  }

  /** A numeral with an optional sign in front, as `to_i` reads it once the whitespace is gone. */
  function SignedNumeral(t: string): int {
    if t != [] && t[0] == '-' then 0 - DigitsValue(NumeralDigits(t[1..]))
    else if t != [] && t[0] == '+' then DigitsValue(NumeralDigits(t[1..]))
    else DigitsValue(NumeralDigits(t))
  }

  /**
   * Ruby's `String#to_i`: leading whitespace skipped, an optional sign, then
   * the numeral; whatever follows is ignored, and no numeral at all reads as 0.
   */
  function RubyToI(s: string): (n: int)
    ensures !NumericStart(s) ==> n == 0
  {
    SignedNumeral(TrimStart(s))
  }

  /** Whitespace before a string that does not itself start with whitespace is all `TrimStart` drops. */
  lemma {:induction false} TrimBlankPrefix(ws: string, x: string)
    requires Blank(ws) && (x == [] || !IsSpace(x[0]))
    ensures TrimStart(ws + x) == x
  {
    if ws != [] {
      assert IsSpace(ws[0]);
      assert (ws + x)[1..] == ws[1..] + x;
      TrimBlankPrefix(ws[1..], x);
    } else {
      assert ws + x == x;
    }
  }

  /** A run of digits followed by neither a digit nor an underscore is read whole. */
  lemma {:induction false} NumeralOfDigits(w: string, rest: string)
    requires AllDigits(w)
    requires rest == [] || (!IsDigit(rest[0]) && rest[0] != '_')
    ensures NumeralDigits(w + rest) == w
  {
    if w == [] {
      assert w + rest == rest;
    } else {
      var s := w + rest;
      assert s[0] == w[0];
      assert |s| >= 2 ==> s[1] != '_';
      assert s[1..] == w[1..] + rest;
      NumeralOfDigits(w[1..], rest);
    }
  }

  /** The sign a numeral may carry. */
  datatype Sign = Unsigned | Plus | Minus

  function SignText(g: Sign): string {
    match g
    case Unsigned => ""
    case Plus => "+"
    case Minus => "-"
  }

  /** `n` under sign `g`. */
  function Signed(g: Sign, n: nat): int {
    if g == Minus then 0 - n else n
  }

  /**
   * `to_i` of whitespace, an optional sign, digits and any tail that does not
   * continue the numeral is the signed value of the digits.
   */
  lemma ToIReadsLeadingNumeral(ws: string, g: Sign, w: string, rest: string)
    requires Blank(ws)
    requires w != [] && AllDigits(w)
    requires rest == [] || (!IsDigit(rest[0]) && rest[0] != '_')
    ensures RubyToI(ws + (SignText(g) + (w + rest))) == Signed(g, DigitsValue(w))
    ensures NumericStart(ws + (SignText(g) + (w + rest)))
  {
    var x := SignText(g) + (w + rest);
    SignedShape(g, w, rest);
    TrimBlankPrefix(ws, x);
    SignedDigits(g, w, rest);
  }

  /** A sign and digits: the string starts as `NumericStart` asks, and not with whitespace. */
  lemma SignedShape(g: Sign, w: string, rest: string)
    requires w != [] && AllDigits(w)
    ensures var x := SignText(g) + (w + rest);
      x != [] && !IsSpace(x[0]) &&
      (IsDigit(x[0]) || (|x| >= 2 && (x[0] == '+' || x[0] == '-') && IsDigit(x[1])))
  {
    var x := SignText(g) + (w + rest);
    assert IsDigit(w[0]);
    if g == Unsigned {
      assert x[0] == w[0];
    } else {
      assert x[1] == w[0];
    }
  }

  /** The value part of `ToIReadsLeadingNumeral`, once the whitespace is gone. */
  lemma SignedDigits(g: Sign, w: string, rest: string)
    requires w != [] && AllDigits(w)
    requires rest == [] || (!IsDigit(rest[0]) && rest[0] != '_')
    ensures SignedNumeral(SignText(g) + (w + rest)) == Signed(g, DigitsValue(w))
  {
    var y := w + rest;
    assert y[0] == w[0];
    NumeralOfDigits(w, rest);
    SignThenNumeral(g, y);
  }

  /** A sign, then a string starting with a digit: the numeral it starts with, under that sign. */
  lemma SignThenNumeral(g: Sign, y: string)
    requires y != [] && IsDigit(y[0])
    ensures SignedNumeral(SignText(g) + y) == Signed(g, DigitsValue(NumeralDigits(y)))
  {
    if g == Unsigned {
      assert SignText(g) + y == y;
    } else {
      assert (SignText(g) + y)[1..] == y;
    }
  }

  /** A string of digits alone reads as its value. */
  lemma DigitsToI(w: string)
    requires w != [] && AllDigits(w)
    ensures RubyToI(w) == DigitsValue(w) && NumericStart(w)
  {
    ToIReadsLeadingNumeral("", Unsigned, w, "");
    assert "" + (SignText(Unsigned) + (w + "")) == w;
  }

  // ------------------------------------------------------------- sequences

  /** The rows of `s` that satisfy `p`, in their original order. */
  function Filter<T(!new)>(s: seq<T>, p: T -> bool): (r: seq<T>)
    ensures |r| <= |s|
    ensures forall x :: x in r <==> x in s && p(x)
    ensures multiset(r) <= multiset(s)
  {
    if s == [] then []
    else
      var rest := Filter(s[1..], p);
      assert s == [s[0]] + s[1..];
      if p(s[0]) then [s[0]] + rest else rest
  }

  /** Two filters applied one after the other commute (SQL conjunction). */
  lemma {:induction false} FilterCommutes<T(!new)>(s: seq<T>, p: T -> bool, q: T -> bool)
    ensures Filter(Filter(s, p), q) == Filter(Filter(s, q), p)
  {
    if s != [] {
      FilterCommutes(s[1..], p, q);
      var fp, fq := Filter(s[1..], p), Filter(s[1..], q);
      if p(s[0]) {
        assert Filter([s[0]] + fp, q) == (if q(s[0]) then [s[0]] else []) + Filter(fp, q) by {
          assert ([s[0]] + fp)[1..] == fp;
        }
      }
      if q(s[0]) {
        assert Filter([s[0]] + fq, p) == (if p(s[0]) then [s[0]] else []) + Filter(fq, p) by {
          assert ([s[0]] + fq)[1..] == fq;
        }
      }
    }
  }

  /** The rows that satisfy p and those that do not add up to all rows. */
  lemma {:induction false} FilterPartition<T(!new)>(s: seq<T>, p: T -> bool)
    ensures |Filter(s, p)| + |Filter(s, x => !p(x))| == |s|
  {
    if s != [] {
      FilterPartition(s[1..], p);
    }
  }

  /** A relation that holds between every earlier and later element still holds after filtering. */
  lemma {:induction false} FilterPairwise<T(!new)>(s: seq<T>, p: T -> bool, r: (T, T) -> bool)
    requires forall i, j :: 0 <= i < j < |s| ==> r(s[i], s[j])
    ensures forall i, j :: 0 <= i < j < |Filter(s, p)| ==> r(Filter(s, p)[i], Filter(s, p)[j])
  {
    if s != [] {
      FilterPairwise(s[1..], p, r);
      var rest := Filter(s[1..], p);
      if p(s[0]) {
        var f := [s[0]] + rest;
        forall i, j | 0 <= i < j < |f| ensures r(f[i], f[j]) {
          if i == 0 {
            assert rest[j - 1] in s[1..];
            var k :| 0 <= k < |s[1..]| && s[1..][k] == rest[j - 1];
            assert s[k + 1] == f[j];
          } else {
            assert f[i] == rest[i - 1] && f[j] == rest[j - 1];
          }
        }
      }
    }
  }

  /** Filtering by a condition every element meets keeps the whole sequence. */
  lemma {:induction false} FilterKeepsAll<T(!new)>(s: seq<T>, p: T -> bool)
    requires forall x :: x in s ==> p(x)
    ensures Filter(s, p) == s
  {
    if s != [] {
      FilterKeepsAll(s[1..], p);
      assert s == [s[0]] + s[1..];
    }
  }
}
