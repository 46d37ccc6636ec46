/**
 * The JavaScript string built-ins the attendance engine relies on:
 * `trim`, `toLowerCase`, `includes`, `String(n)` for a non-negative
 * integer, `padStart(2, '0')`, `Number` on a digit string and
 * `parseInt(s, 10)`.
 */
module Strings {
  import opened Wrappers

  /** The characters `String.prototype.trim` removes (WhiteSpace and LineTerminator). */
  predicate IsSpace(c: char) {
    || c == ' ' || c == '\t' || c == '\n' || c == '\r' || c == '\U{B}' || c == '\U{C}'
    || c == '\U{A0}' || c == '\U{1680}' || ('\U{2000}' <= c <= '\U{200A}')
    || c == '\U{2028}' || c == '\U{2029}' || c == '\U{202F}' || c == '\U{205F}'
    || c == '\U{3000}' || c == '\U{FEFF}'
  }

  /** How many white-space characters `s` starts with. */
  function LeadingSpace(s: string): (n: nat)
    ensures n <= |s|
    ensures forall i :: 0 <= i < n ==> IsSpace(s[i])
    ensures n < |s| ==> !IsSpace(s[n])
  {
    if s != [] && IsSpace(s[0]) then 1 + LeadingSpace(s[1..]) else 0
  }

  /** How many white-space characters `s` ends with. */
  function TrailingSpace(s: string): (n: nat)
    ensures n <= |s|
    ensures forall i :: |s| - n <= i < |s| ==> IsSpace(s[i])
    ensures n < |s| ==> !IsSpace(s[|s| - n - 1])
  {
    if s != [] && IsSpace(s[|s| - 1]) then 1 + TrailingSpace(s[..|s| - 1]) else 0
  }

  function TrimStart(s: string): (t: string)
    ensures |t| <= |s| && t == s[|s| - |t|..]
    ensures t == [] || !IsSpace(t[0])
  {
    s[LeadingSpace(s)..]
  }

  function TrimEnd(s: string): (t: string)
    ensures |t| <= |s| && t == s[..|t|]
    ensures t == [] || !IsSpace(t[|t| - 1])
  {
    s[..|s| - TrailingSpace(s)]
  }

  /**
   * `s.trim()`: the input with its leading and trailing white space cut
   * off. The result is the slice that starts after the leading white
   * space, only white space stands before and after it, and it neither
   * starts nor ends with white space.
   */
  function Trim(s: string): (t: string)
    ensures LeadingSpace(s) + |t| <= |s| && t == s[LeadingSpace(s)..LeadingSpace(s) + |t|]
    ensures forall i :: 0 <= i < LeadingSpace(s) ==> IsSpace(s[i])
    ensures forall i :: LeadingSpace(s) + |t| <= i < |s| ==> IsSpace(s[i])
    ensures t != [] ==> !IsSpace(t[0]) && !IsSpace(t[|t| - 1])
  {
    TrimSlice(s);
    TrimTrailing(s);
    TrimEnd(TrimStart(s))
  }

  lemma TrimSlice(s: string)
    ensures var t := TrimEnd(TrimStart(s));
      LeadingSpace(s) + |t| <= |s| && t == s[LeadingSpace(s)..LeadingSpace(s) + |t|]
  {
    var a := LeadingSpace(s);
    var u := TrimStart(s);
    var t := TrimEnd(u);
    assert u == s[a..];
    assert t == u[..|t|];
  }

  lemma TrimTrailing(s: string)
    ensures var t := TrimEnd(TrimStart(s));
      forall i :: LeadingSpace(s) + |t| <= i < |s| ==> IsSpace(s[i])
  {
    var a := LeadingSpace(s);
    var u := s[a..];
    var k := TrailingSpace(u);
    assert TrimStart(s) == u;
    assert |TrimEnd(u)| == |u| - k;
    forall i | a + |u| - k <= i < |s|
      ensures IsSpace(s[i])
    {
      assert IsSpace(u[i - a]);
    }
  }

  /** A text with no white space at either end is its own trim. */
  lemma TrimUnchanged(s: string)
    requires s != [] && !IsSpace(s[0]) && !IsSpace(s[|s| - 1])
    ensures Trim(s) == s
  {
    assert TrimStart(s) == s;
  }

  /** `toLowerCase` on the ASCII letters: an upper-case letter moves 32 code points up, anything else stays. */
  function Lower(c: char): (r: char)
    ensures !('A' <= r <= 'Z')
    ensures 'A' <= c <= 'Z' ==> r as int == c as int + 32
    ensures !('A' <= c <= 'Z') ==> r == c
  {
    if 'A' <= c <= 'Z' then (c as int + 32) as char else c
  }

  function ToLower(s: string): (t: string)
    ensures |t| == |s|
    ensures forall i :: 0 <= i < |s| ==> t[i] == Lower(s[i])
  {
    if s == [] then [] else [Lower(s[0])] + ToLower(s[1..])
  }

  /** Lower-casing twice is lower-casing once. */
  lemma ToLowerIdempotent(s: string)
    ensures ToLower(ToLower(s)) == ToLower(s)
  {
    var t := ToLower(s);
    assert forall i :: 0 <= i < |t| ==> Lower(t[i]) == t[i];
  }

  /** `s.includes(sub)` */
  predicate Contains(s: string, sub: string)
    decreases |s|
  {
    if |s| < |sub| then false
    else s[..|sub|] == sub || Contains(s[1..], sub)
  }

  lemma {:induction false} ContainsAt(s: string, k: nat, sub: string)
    requires k + |sub| <= |s| && s[k..k + |sub|] == sub
    ensures Contains(s, sub)
    decreases k
  {
    if k > 0 {
      assert s[1..][k - 1..k - 1 + |sub|] == sub;
      ContainsAt(s[1..], k - 1, sub);
    }
  }

  /** Conversely, a string that contains `sub` has it at some position `k`. */
  lemma {:induction false} ContainsFound(s: string, sub: string) returns (k: nat)
    requires Contains(s, sub)
    ensures k + |sub| <= |s| && s[k..k + |sub|] == sub
    decreases |s|
  {
    if s[..|sub|] == sub {
      k := 0;
    } else {
      var j := ContainsFound(s[1..], sub);
      assert s[1..][j..j + |sub|] == s[j + 1..j + 1 + |sub|];
      k := j + 1;
    }
  }

  /** `sub` occurs in `s` starting at position `k`. */
  predicate OccursAt(s: string, sub: string, k: nat) {
    k + |sub| <= |s| && s[k..k + |sub|] == sub
  }

  /** `includes` holds exactly when `sub` occurs at some position of `s`. */
  lemma ContainsIff(s: string, sub: string)
    ensures Contains(s, sub) <==> exists k: nat :: OccursAt(s, sub, k)
  {
    if Contains(s, sub) {
      var k := ContainsFound(s, sub);
      assert OccursAt(s, sub, k);
    } else if k: nat :| OccursAt(s, sub, k) {
      ContainsAt(s, k, sub);
    }
  }

  /** A string that contains `a + b` contains `b`. */
  lemma {:induction false} ContainsSuffix(s: string, a: string, b: string)
    requires Contains(s, a + b)
    ensures Contains(s, b)
    decreases |s|
  {
    if s[..|a + b|] == a + b {
      assert s[|a|..|a| + |b|] == b;
      ContainsAt(s, |a|, b);
    } else {
      ContainsSuffix(s[1..], a, b);
    }
  }

  predicate IsDigit(c: char) { '0' <= c <= '9' }

  predicate AllDigits(s: string) {
    forall i :: 0 <= i < |s| ==> IsDigit(s[i])
  }

  function DigitChar(d: nat): (c: char)
    requires d < 10
    ensures IsDigit(c) && DigitValue(c) == d
  {
    ('0' as int + d) as char
  }

  function DigitValue(c: char): (d: nat)
    requires IsDigit(c)
    ensures d < 10
  {
    c as int - '0' as int
  }

  /** `String(n)` for a non-negative integer: decimal, no leading zeros. */
  function Digits(n: nat): (s: string)
    ensures |s| >= 1 && AllDigits(s)
    ensures |s| == 1 <==> n < 10
    ensures 10 <= n < 100 ==> |s| == 2
    ensures s[0] == '0' <==> n == 0
    decreases n
  {
    if n < 10 then [DigitChar(n)] else Digits(n / 10) + [DigitChar(n % 10)]
  }

  /** The number a string of decimal digits denotes (`Number` / `parseInt`). */
  function Value(s: string): nat
    requires AllDigits(s)
  {
    if s == [] then 0 else Value(s[..|s| - 1]) * 10 + DigitValue(s[|s| - 1])
  }

  lemma {:induction false} ValueOfDigits(n: nat)
    ensures Value(Digits(n)) == n
    decreases n
  {
    if n >= 10 {
      ValueOfDigits(n / 10);
      var s := Digits(n);
      assert s[..|s| - 1] == Digits(n / 10);
    }
  }

  lemma {:induction false} ValueLeadingZero(s: string)
    requires AllDigits(s)
    ensures AllDigits(['0'] + s) && Value(['0'] + s) == Value(s)
    decreases |s|
  {
    if s != [] {
      var z := ['0'] + s;
      assert z[..|z| - 1] == ['0'] + s[..|s| - 1];
      ValueLeadingZero(s[..|s| - 1]);
    }
  }

  /** `s.padStart(width, fill)` */
  function PadStart(s: string, width: nat, fill: char): (t: string)
    ensures |t| == if |s| >= width then |s| else width
    ensures t[|t| - |s|..] == s
    decreases width - |s|
  {
    if |s| >= width then s else PadStart([fill] + s, width, fill)
  }

  lemma {:induction false} ValuePadStart(s: string, width: nat)
    requires AllDigits(s)
    ensures AllDigits(PadStart(s, width, '0'))
    ensures Value(PadStart(s, width, '0')) == Value(s)
    decreases width - |s|
  {
    if |s| < width {
      ValueLeadingZero(s);
      ValuePadStart(['0'] + s, width);
    }
  }

  /** The longest prefix of `s` made of decimal digits. */
  function DigitPrefix(s: string): (p: string)
    ensures |p| <= |s| && p == s[..|p|] && AllDigits(p)
    ensures |p| < |s| ==> !IsDigit(s[|p|])
  {
    if s != [] && IsDigit(s[0]) then [s[0]] + DigitPrefix(s[1..]) else []
  }

  lemma {:induction false} DigitPrefixOfDigits(s: string)
    requires AllDigits(s)
    ensures DigitPrefix(s) == s
  {
    if s != [] {
      DigitPrefixOfDigits(s[1..]);
    }
  }

  /** A text that begins and ends with a digit is its own trim. */
  lemma TrimDigitEnds(s: string)
    requires s != [] && IsDigit(s[0]) && IsDigit(s[|s| - 1])
    ensures Trim(s) == s
  {
    TrimUnchanged(s);
  }

  /**
   * `parseInt(s, 10)`: leading white space, an optional sign, then the
   * longest run of decimal digits; `None` stands for NaN (no digit).
   */
  function ParseInt(s: string): Option<int> {
    ParseSigned(TrimStart(s))
  }

  /** `parseInt` is NaN exactly when no digit follows the white space and the optional sign. */
  lemma ParseIntNaN(s: string)
    ensures ParseInt(s).None? <==>
      var t := TrimStart(s);
      DigitPrefix(if t != [] && (t[0] == '-' || t[0] == '+') then t[1..] else t) == []
  {
  }

  /** The part of `parseInt` after the white space: an optional sign, then the digits. */
  function ParseSigned(t: string): Option<int> {
    var negative := t != [] && t[0] == '-';
    var body := if t != [] && (t[0] == '-' || t[0] == '+') then t[1..] else t;
    var digits := DigitPrefix(body);
    if digits == [] then None
    else
      var magnitude: int := Value(digits);
      Some(if negative then -magnitude else magnitude)
  }

  /** A text that does not start with white space is its own `TrimStart`. */
  lemma TrimStartNoSpace(s: string)
    requires s != [] && !IsSpace(s[0])
    ensures TrimStart(s) == s
  {
  }

  /** The digits `parseInt` reads stop at the first character that is not a digit. */
  lemma {:induction false} DigitPrefixStops(s: string, rest: string)
    requires AllDigits(s) && (rest == [] || !IsDigit(rest[0]))
    ensures DigitPrefix(s + rest) == s
  {
    if s != [] {
      assert (s + rest)[0] == s[0];
      assert (s + rest)[1..] == s[1..] + rest;
      DigitPrefixStops(s[1..], rest);
    } else {
      assert s + rest == rest;
    }
  }

  /** `parseInt` reads the digits up to the first non-digit and ignores the rest. */
  lemma {:induction false} ParseIntDigitsThen(s: string, rest: string)
    requires s != [] && AllDigits(s) && (rest == [] || !IsDigit(rest[0]))
    ensures ParseInt(s + rest) == Some(Value(s))
  {
    var t := s + rest;
    assert t != [] && !IsSpace(t[0]) && t[0] != '-' && t[0] != '+' by {
      assert t[0] == s[0] && IsDigit(s[0]);
    }
    TrimStartNoSpace(t);
    DigitPrefixStops(s, rest);
  }

  /** A text that starts with a sign and then digits is read as that signed number. */
  lemma {:induction false} ParseIntSignedDigits(m: string, s: string, rest: string)
    requires m != [] && (m[0] == '-' || m[0] == '+') && m[1..] == s + rest
    requires s != [] && AllDigits(s) && (rest == [] || !IsDigit(rest[0]))
    ensures ParseInt(m) == Some(if m[0] == '-' then -(Value(s) as int) else Value(s))
  {
    TrimStartNoSpace(m);
    DigitPrefixStops(s, rest);
  }

  /** A leading '-' negates the number `parseInt` reads. */
  lemma ParseIntMinusDigits(s: string, rest: string)
    requires s != [] && AllDigits(s) && (rest == [] || !IsDigit(rest[0]))
    ensures ParseInt("-" + (s + rest)) == Option<int>.Some(-(Value(s) as int))
  {
    var m := "-" + (s + rest);
    assert m[0] == '-' && m[1..] == s + rest;
    ParseIntSignedDigits(m, s, rest);
  }

  /** A leading '+' leaves the number `parseInt` reads as it is. */
  lemma ParseIntPlusDigits(s: string, rest: string)
    requires s != [] && AllDigits(s) && (rest == [] || !IsDigit(rest[0]))
    ensures ParseInt("+" + (s + rest)) == Some(Value(s))
  {
    var p := "+" + (s + rest);
    assert p[0] == '+' && p[1..] == s + rest;
    ParseIntSignedDigits(p, s, rest);
  }

  /** `parseInt` on a run of decimal digits is the number they denote. */
  lemma ParseIntOfDigitString(s: string)
    requires s != [] && AllDigits(s)
    ensures ParseInt(s) == Some(Value(s))
  {
    assert IsDigit(s[0]);
    TrimStartNoSpace(s);
    DigitPrefixOfDigits(s);
  }

  /** `parseInt` reads back what `String` writes for a non-negative integer. */
  lemma ParseIntOfDigits(n: nat)
    ensures ParseInt(Digits(n)) == Some(n)
  {
    ParseIntOfDigitString(Digits(n));
    ValueOfDigits(n);
  }
}
