/**
 * Canonical times of day. The time parser writes a time as the text
 * `HH:MM` (each field zero-padded to at least two digits) and the
 * worked-hours calculator reads it back with `split(':').map(Number)`;
 * `Clock` is the pair of numbers that text stands for, and the round
 * trip below shows that nothing is lost between the two.
 */
module Times {
  import opened Wrappers
  import opened Strings

  /** A time of day in hours and minutes. Neither field is range-checked by the parser. */
  datatype Clock = Clock(hours: nat, minutes: nat)

  /** A time an ordinary clock can show: 00:00 .. 23:59. */
  predicate IsCanonical(c: Clock) {
    c.hours < 24 && c.minutes < 60
  }

  /** `hours * 60 + minutes` */
  function MinutesOf(c: Clock): nat {
    c.hours * 60 + c.minutes
  }

  /** `${String(hours).padStart(2, '0')}:${String(minutes).padStart(2, '0')}` */
  function Format(c: Clock): (s: string)
    ensures |s| >= 5
  {
    PadStart(Digits(c.hours), 2, '0') + ":" + PadStart(Digits(c.minutes), 2, '0')
  }

  /** A number below 100 written with `padStart(2, '0')`: its tens digit, then its units digit. */
  lemma PadTwo(n: nat)
    requires n < 100
    ensures PadStart(Digits(n), 2, '0') == [DigitChar(n / 10), DigitChar(n % 10)]
  {
    if n >= 10 {
      assert Digits(n / 10) == [DigitChar(n / 10)];
      assert Digits(n) == Digits(n / 10) + [DigitChar(n % 10)];
      assert |Digits(n)| == 2;
    } else {
      assert Digits(n) == [DigitChar(n)];
      assert n / 10 == 0 && n % 10 == n;
      assert PadStart(['0', DigitChar(n)], 2, '0') == ['0', DigitChar(n)];
    }
  }

  lemma JoinAtColon(a: char, b: char, d: char, e: char)
    ensures [a, b] + ":" + [d, e] == [a, b, ':', d, e]
  {
  }

  /** Fields below 100 are written as exactly two digits each, around a colon. */
  lemma FormatFields(c: Clock)
    requires c.hours < 100 && c.minutes < 100
    ensures Format(c) == [DigitChar(c.hours / 10), DigitChar(c.hours % 10), ':',
                          DigitChar(c.minutes / 10), DigitChar(c.minutes % 10)]
  {
    assert Format(c) == [DigitChar(c.hours / 10), DigitChar(c.hours % 10)] + ":"
                        + [DigitChar(c.minutes / 10), DigitChar(c.minutes % 10)] by {
      PadTwo(c.hours);
      PadTwo(c.minutes);
    }
    JoinAtColon(DigitChar(c.hours / 10), DigitChar(c.hours % 10), DigitChar(c.minutes / 10), DigitChar(c.minutes % 10));
  }

  /** The index of the first ':' in `s`, or `|s|` when there is none. */
  function ColonIndex(s: string): (i: nat)
    ensures i <= |s|
    ensures i < |s| ==> s[i] == ':'
    ensures forall j :: 0 <= j < i ==> s[j] != ':'
  {
    if s == [] || s[0] == ':' then 0 else 1 + ColonIndex(s[1..])
  }

  /**
   * `const [h, m] = s.split(':').map(Number)` for the text of a time:
   * the field before the first ':' and the field after it, each a
   * non-empty run of digits.
   */
  function ReadClock(s: string): (r: Option<Clock>)
    ensures (forall k :: 0 <= k < |s| ==> s[k] != ':') ==> r.None?
    ensures r.Some? ==> s[..ColonIndex(s)] != [] && AllDigits(s[..ColonIndex(s)]) && r.value.hours == Value(s[..ColonIndex(s)])
  {
    var i := ColonIndex(s);
    if i == |s| then None
    else
      var hours := s[..i];
      var rest := s[i + 1..];
      var minutes := rest[..ColonIndex(rest)];
      if hours != [] && minutes != [] && AllDigits(hours) && AllDigits(minutes)
      then Some(Clock(Value(hours), Value(minutes)))
      else None
  }

  lemma ColonIndexAfterDigits(a: string, b: string)
    requires AllDigits(a) && b != [] && b[0] == ':'
    ensures ColonIndex(a + b) == |a|
  {
    assert (a + b)[|a|] == ':';
    assert forall j :: 0 <= j < |a| ==> (a + b)[j] == a[j];
  }

  lemma ColonIndexOfDigits(a: string)
    requires AllDigits(a)
    ensures ColonIndex(a) == |a|
  {
  }

  /** Two non-empty digit fields around a colon read as those two numbers. */
  lemma ReadFields(h: string, m: string)
    requires h != [] && m != [] && AllDigits(h) && AllDigits(m)
    ensures ReadClock(h + ":" + m) == Some(Clock(Value(h), Value(m)))
  {
    var s := h + ":" + m;
    assert s == h + ([':'] + m);
    ColonIndexAfterDigits(h, [':'] + m);
    assert s[..|h|] == h;
    assert s[|h| + 1..] == m;
    ColonIndexOfDigits(m);
    assert m[..|m|] == m;
  }

  /** What the parser writes, the calculator reads back unchanged. */
  lemma ReadFormat(c: Clock)
    ensures ReadClock(Format(c)) == Some(c)
  {
    ValuePadStart(Digits(c.hours), 2);
    ValuePadStart(Digits(c.minutes), 2);
    ValueOfDigits(c.hours);
    ValueOfDigits(c.minutes);
    ReadFields(PadStart(Digits(c.hours), 2, '0'), PadStart(Digits(c.minutes), 2, '0'));
  }
}
