/**
 * Decimal text, JavaScript string comparison and whitespace trimming.
 *
 * `String(n)` on a non-negative integer, `String.prototype.padStart`, the
 * digit strings matched by `\d` and the relational operators `<`, `>` on
 * strings (which compare character by character, a proper prefix being the
 * smaller) and `String.prototype.trim` are modelled here once and used by
 * every other module.
 */
module Digits {

  predicate IsDigit(c: char) { '0' <= c <= '9' }

  predicate AllDigits(s: string) { forall i :: 0 <= i < |s| ==> IsDigit(s[i]) }

  function DigitChar(n: nat): (c: char)
    requires n < 10
    ensures IsDigit(c)
  {
    ('0' as int + n) as char
  }

  function DigitValue(c: char): (n: nat)
    requires IsDigit(c)
    ensures n < 10 && DigitChar(n) == c
  {
    (c as int - '0' as int)
  }

  /** `String(n)` for a non-negative integer: shortest decimal text. */
  function NatToString(n: nat): (s: string)
    ensures 1 <= |s| && AllDigits(s)
    ensures (s[0] == '0') == (n == 0)
    ensures n < 10 <==> |s| == 1
    decreases n
  {
    if n < 10 then [DigitChar(n)] else NatToString(n / 10) + [DigitChar(n % 10)]
  }

  /** `String(i)` for any integer: a minus sign before negative values. */
  function IntToString(i: int): string
  {
    if i < 0 then "-" + NatToString(-i) else NatToString(i)
  }

  /** The value of a digit string, as `Number(s)` / `parseInt(s, 10)` read it. */
  function ParseNat(s: string): nat
    requires AllDigits(s)
  {
    if |s| == 0 then 0 else ParseNat(s[..|s| - 1]) * 10 + DigitValue(s[|s| - 1])
  }

  /** `s.padStart(width, fill)`. */
  function PadStart(s: string, width: nat, fill: char): (r: string)
    ensures |r| == if |s| >= width then |s| else width
    ensures r[|r| - |s|..] == s
    ensures forall i :: 0 <= i < |r| - |s| ==> r[i] == fill
  {
    if |s| >= width then s else seq(width - |s|, _ => fill) + s
  }

  /** Two-digit zero-padded decimal: `String(n).padStart(2, '0')`. */
  function Pad2(n: nat): string
  {
    PadStart(NatToString(n), 2, '0')
  }

  /** JavaScript's `a < b` on strings. */
  predicate StrLess(a: string, b: string)
  {
    if |a| == 0 then |b| > 0
    else if |b| == 0 then false
    else if a[0] != b[0] then a[0] < b[0]
    else StrLess(a[1..], b[1..])
  }

  lemma {:induction false} ParseNatToString(n: nat)
    ensures ParseNat(NatToString(n)) == n
    decreases n
  {
    if n >= 10 {
      var s := NatToString(n);
      ParseNatToString(n / 10);
      assert s[..|s| - 1] == NatToString(n / 10);
    }
  }

  lemma NatToStringInjective(a: nat, b: nat)
    requires NatToString(a) == NatToString(b)
    ensures a == b
  {
    ParseNatToString(a);
    ParseNatToString(b);
  }

  lemma {:induction false} ParseNatPositive(s: string)
    requires AllDigits(s) && |s| > 0 && s[0] != '0'
    ensures ParseNat(s) > 0
    decreases |s|
  {
    if |s| > 1 {
      ParseNatPositive(s[..|s| - 1]);
    } else {
      assert DigitChar(DigitValue(s[0])) == s[0];
    }
  }

  /** A digit string without a leading zero is the text of its own value. */
  lemma {:induction false} NatToStringParseNat(s: string)
    requires AllDigits(s) && |s| > 0 && s[0] != '0'
    ensures NatToString(ParseNat(s)) == s
    decreases |s|
  {
    var n := ParseNat(s);
    if |s| == 1 {
      assert s[..0] == [];
    } else {
      var init := s[..|s| - 1];
      ParseNatPositive(init);
      NatToStringParseNat(init);
      assert n / 10 == ParseNat(init) && n % 10 == DigitValue(s[|s| - 1]);
      assert s == init + [s[|s| - 1]];
    }
  }

  lemma ParseNatTwo(s: string)
    requires |s| == 2 && AllDigits(s)
    ensures ParseNat(s) == DigitValue(s[0]) * 10 + DigitValue(s[1])
  {
    var t := s[..1];
    assert t[..0] == [];
    assert ParseNat(t) == DigitValue(s[0]);
  }

  lemma PadStartTwo(t: string)
    requires 1 <= |t| <= 2
    ensures PadStart(t, 2, '0') == if |t| == 1 then ['0', t[0]] else t
  {
    if |t| == 1 {
      var r := PadStart(t, 2, '0');
      assert r[1..] == t;
    }
  }

  lemma NatToStringTwoDigits(n: nat)
    requires 10 <= n < 100
    ensures NatToString(n) == [DigitChar(n / 10), DigitChar(n % 10)]
  {
    assert NatToString(n / 10) == [DigitChar(n / 10)];
  }

  /** Below 100 the padded text is the tens digit followed by the units digit. */
  lemma Pad2Chars(n: nat)
    requires n < 100
    ensures Pad2(n) == [DigitChar(n / 10), DigitChar(n % 10)]
  {
    var t := NatToString(n);
    if n < 10 {
      assert t == [DigitChar(n)];
      PadStartTwo(t);
    } else {
      NatToStringTwoDigits(n);
      PadStartTwo(t);
    }
  }

  lemma Pad2Shape(n: nat)
    requires n < 100
    ensures |Pad2(n)| == 2 && AllDigits(Pad2(n)) && ParseNat(Pad2(n)) == n
  {
    Pad2Chars(n);
    ParseNatTwo([DigitChar(n / 10), DigitChar(n % 10)]);
  }

  /** A two-digit string is the padded text of its value. */
  lemma Pad2ParseNat(s: string)
    requires |s| == 2 && AllDigits(s)
    ensures Pad2(ParseNat(s)) == s
  {
    ParseNatTwo(s);
    Pad2OfDigits(DigitValue(s[0]), DigitValue(s[1]), ParseNat(s));
    PairOfChars(s);
  }

  /** A string of two characters is the display of its two characters. */
  lemma PairOfChars(s: string)
    requires |s| == 2
    ensures s == [s[0], s[1]]
  {
  }

  /** The padded text of `10 * a + b` is the digit of `a` followed by the digit of `b`. */
  lemma Pad2OfDigits(a: nat, b: nat, n: nat)
    requires a < 10 && b < 10 && n == a * 10 + b
    ensures Pad2(n) == [DigitChar(a), DigitChar(b)]
  {
    TensAndUnits(a, b);
    Pad2Chars(n);
  }

  lemma TensAndUnits(a: nat, b: nat)
    requires a < 10 && b < 10
    ensures (a * 10 + b) / 10 == a && (a * 10 + b) % 10 == b
  {
  }

  lemma IntToStringInjective(a: int, b: int)
    requires IntToString(a) == IntToString(b)
    ensures a == b
  {
    // The sign is visible in the first character.
    assert (IntToString(a)[0] == '-') == (a < 0);
    assert (IntToString(b)[0] == '-') == (b < 0);
    if a < 0 {
      assert IntToString(a)[1..] == NatToString(-a);
      assert IntToString(b)[1..] == NatToString(-b);
      NatToStringInjective(-a, -b);
    } else {
      NatToStringInjective(a, b);
    }
  }

  lemma {:induction false} StrLessIrreflexive(a: string)
    ensures !StrLess(a, a)
    decreases |a|
  {
    if |a| > 0 {
      StrLessIrreflexive(a[1..]);
    }
  }

  lemma {:induction false} StrLessAsymmetric(a: string, b: string)
    requires StrLess(a, b)
    ensures !StrLess(b, a)
    decreases |a|
  {
    if |a| > 0 && |b| > 0 && a[0] == b[0] {
      StrLessAsymmetric(a[1..], b[1..]);
    }
  }

  lemma {:induction false} StrLessTransitive(a: string, b: string, c: string)
    requires StrLess(a, b) && StrLess(b, c)
    ensures StrLess(a, c)
    decreases |a|
  {
    if |a| > 0 && a[0] == b[0] && b[0] == c[0] {
      StrLessTransitive(a[1..], b[1..], c[1..]);
    }
  }

  lemma {:induction false} StrLessTotal(a: string, b: string)
    ensures StrLess(a, b) || a == b || StrLess(b, a)
    decreases |a|
  {
    if |a| > 0 && |b| > 0 && a[0] == b[0] {
      StrLessTotal(a[1..], b[1..]);
      if a[1..] == b[1..] {
        assert a == [a[0]] + a[1..] && b == [b[0]] + b[1..];
      }
    }
  }

  /** Comparing two texts that start with prefixes of equal length. */
  lemma {:induction false} StrLessConcat(p: string, q: string, p': string, q': string)
    requires |p| == |p'|
    ensures StrLess(p + q, p' + q') <==> StrLess(p, p') || (p == p' && StrLess(q, q'))
    decreases |p|
  {
    if |p| > 0 {
      assert (p + q)[0] == p[0] && (p' + q')[0] == p'[0];
      assert (p + q)[1..] == p[1..] + q && (p' + q')[1..] == p'[1..] + q';
      StrLessConcat(p[1..], q, p'[1..], q');
      if p[0] == p'[0] && p[1..] == p'[1..] {
        assert p == [p[0]] + p[1..] && p' == [p'[0]] + p'[1..];
      }
    } else {
      assert p + q == q && p' + q' == q';
    }
  }

  /**
   * On digit strings of equal length the text order is the numeric order,
   * and equal text is equal value.
   */
  lemma {:induction false} StrLessDigits(a: string, b: string)
    requires |a| == |b| && AllDigits(a) && AllDigits(b)
    ensures StrLess(a, b) <==> ParseNat(a) < ParseNat(b)
    ensures a == b <==> ParseNat(a) == ParseNat(b)
    decreases |a|
  {
    if |a| == 0 {
      assert a == b;
    } else {
      var n := |a| - 1;
      var a', b' := a[..n], b[..n];
      StrLessDigits(a', b');
      assert a == a' + [a[n]] && b == b' + [b[n]];
      StrLessConcat(a', [a[n]], b', [b[n]]);
      var x, y := DigitValue(a[n]), DigitValue(b[n]);
      assert ParseNat(a) == ParseNat(a') * 10 + x;
      assert ParseNat(b) == ParseNat(b') * 10 + y;
      assert StrLess([a[n]], [b[n]]) <==> x < y;
    }
  }

  // ---------------------------------------------------------------------
  // Joined texts.

  /** Where the separator after `a` sits in `a + [sep] + r`, and what comes before it. */
  lemma JoinedAt(a: string, sep: char, r: string, i: int)
    ensures (a + [sep] + r)[|a|] == sep
    ensures 0 <= i < |a| ==> (a + [sep] + r)[i] == a[i]
  {
  }

  /** A text joined at a separator that its first part does not hold splits only one way. */
  lemma SplitAt(sep: char, a: string, r: string, b: string, t: string)
    requires sep !in a && sep !in b && a + [sep] + r == b + [sep] + t
    ensures a == b && r == t
  {
    JoinedAt(a, sep, r, |b|);
    JoinedAt(b, sep, t, |a|);
    if |a| != |b| {
      assert false;
    }
    var s := a + [sep] + r;
    assert a == s[..|a|] == b;
    assert r == s[|a| + 1..] == t;
  }

  // ---------------------------------------------------------------------
  // Whitespace.

  /** The characters `String.prototype.trim` removes. */
  predicate IsJsWhitespace(c: char)
  {
    c == ' ' || c == '\t' || c == '\n' || c == '\U{B}' || c == '\U{C}' || c == '\r'
    || c == '\U{A0}' || c == '\U{1680}' || ('\U{2000}' <= c <= '\U{200A}')
    || c == '\U{2028}' || c == '\U{2029}' || c == '\U{202F}' || c == '\U{205F}'
    || c == '\U{3000}' || c == '\U{FEFF}'
  }

  /** A string that `trim()` empties, such as `''`. */
  predicate IsBlank(s: string)
  {
    forall i :: 0 <= i < |s| ==> IsJsWhitespace(s[i])
  }

  /** `s.trimStart()`: what is cut off is whitespace, and what remains does not start with it. */
  function TrimStart(s: string): (r: string)
    ensures |r| <= |s| && r == s[|s| - |r|..]
    ensures r == [] || !IsJsWhitespace(r[0])
    ensures forall i :: 0 <= i < |s| - |r| ==> IsJsWhitespace(s[i])
  {
    if s != [] && IsJsWhitespace(s[0]) then
      var r := TrimStart(s[1..]);
      assert forall i :: 1 <= i < |s| ==> s[i] == s[1..][i - 1];
      r
    else s
  }

  /** `s.trimEnd()`: what is cut off is whitespace, and what remains does not end with it. */
  function TrimEnd(s: string): (r: string)
    ensures |r| <= |s| && r == s[..|r|]
    ensures r == [] || !IsJsWhitespace(r[|r| - 1])
    ensures forall i :: |r| <= i < |s| ==> IsJsWhitespace(s[i])
  {
    if s != [] && IsJsWhitespace(s[|s| - 1]) then
      var r := TrimEnd(s[..|s| - 1]);
      assert forall i :: 0 <= i < |s| - 1 ==> s[i] == s[..|s| - 1][i];
      r
    else s
  }

  /** `s.trim()`: empty exactly for a blank string, and otherwise neither starting nor ending in whitespace. */
  function Trim(s: string): (r: string)
    ensures |r| <= |s|
    ensures r == [] <==> IsBlank(s)
    ensures r != [] ==> !IsJsWhitespace(r[0]) && !IsJsWhitespace(r[|r| - 1])
  {
    var t := TrimStart(s);
    assert forall i :: |s| - |t| <= i < |s| ==> s[i] == t[i - (|s| - |t|)];
    TrimEnd(t)
  }
}
