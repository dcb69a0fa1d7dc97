/**
 * The few pieces of Python's `str` and `int` behaviour that the
 * authentication code relies on: `startswith`, `replace(old, "")`,
 * `strip()`, `str(n)` for an integer and `int(s)` for a string.
 */
module Text {
  import opened Wrappers

  /** Python's `str.isspace` set, the characters `str.strip()` removes. */
  predicate IsWhitespace(c: char)
  {
    || ('\U{0009}' <= c <= '\U{000D}')
    || ('\U{001C}' <= c <= '\U{0020}')
    || c == '\U{0085}' || c == '\U{00A0}' || c == '\U{1680}'
    || ('\U{2000}' <= c <= '\U{200A}')
    || c == '\U{2028}' || c == '\U{2029}' || c == '\U{202F}' || c == '\U{205F}' || c == '\U{3000}'
  }

  predicate NoWhitespace(s: string)
  {
    forall k :: 0 <= k < |s| ==> !IsWhitespace(s[k])
  }

  predicate StartsWith(s: string, prefix: string)
  {
    |prefix| <= |s| && s[..|prefix|] == prefix
  }

  /** `pat` occurs in `s` starting at index `i`. */
  predicate MatchesAt(s: string, pat: string, i: nat)
  {
    i + |pat| <= |s| && s[i..i + |pat|] == pat
  }

  predicate Occurs(pat: string, s: string)
  {
    exists i: nat :: i <= |s| && MatchesAt(s, pat, i)
  }

  // ---------------------------------------------------------------------
  // s.replace(pat, "")
  // ---------------------------------------------------------------------

  /**
   * Python's `s.replace(pat, "")`: scanning from the left, every
   * non-overlapping occurrence of `pat` is deleted.
   */
  function RemoveAll(s: string, pat: string): (r: string)
    requires |pat| > 0
    ensures |r| <= |s|
    decreases |s|
  {
    if s == [] then []
    else if StartsWith(s, pat) then RemoveAll(s[|pat|..], pat)
    else [s[0]] + RemoveAll(s[1..], pat)
  }

  /** A string in which `pat` never occurs is left as it is. */
  lemma {:induction false} RemoveAllAbsent(s: string, pat: string)
    requires |pat| > 0
    requires !Occurs(pat, s)
    ensures RemoveAll(s, pat) == s
    decreases |s|
  {
    if s != [] {
      assert !MatchesAt(s, pat, 0);
      assert !StartsWith(s, pat);
      forall i: nat | i <= |s[1..]| && MatchesAt(s[1..], pat, i) ensures false {
        assert s[1..][i..i + |pat|] == s[i + 1..i + 1 + |pat|];
        assert MatchesAt(s, pat, i + 1);
      }
      RemoveAllAbsent(s[1..], pat);
    }
  }

  /**
   * An occurrence in the middle of the string is removed as well as a
   * leading one: if no occurrence starts inside `a`, then
   * `(a + pat + b).replace(pat, "") == a + b.replace(pat, "")`.
   */
  lemma {:induction false} RemoveAllInterior(a: string, pat: string, b: string)
    requires |pat| > 0
    requires forall i: nat :: i < |a| ==> !MatchesAt(a + pat + b, pat, i)
    ensures RemoveAll(a + pat + b, pat) == a + RemoveAll(b, pat)
    decreases |a|
  {
    var s := a + pat + b;
    if a == [] {
      assert s == pat + b;
      assert StartsWith(s, pat);
      assert s[|pat|..] == b;
    } else {
      assert !MatchesAt(s, pat, 0);
      assert !StartsWith(s, pat);
      assert s[1..] == a[1..] + pat + b;
      forall i: nat | i < |a[1..]| ensures !MatchesAt(a[1..] + pat + b, pat, i) {
        assert !MatchesAt(s, pat, i + 1);
        assert s[1..][i..i + |pat|] == s[i + 1..i + 1 + |pat|];
      }
      RemoveAllInterior(a[1..], pat, b);
      assert [a[0]] + a[1..] == a;
    }
  }

  // ---------------------------------------------------------------------
  // s.strip() and the whitespace int(s) ignores
  // ---------------------------------------------------------------------

  /**
   * The two whitespace sets in play: `str.strip()` removes the whole
   * `isspace` set; `int(s)` passes characters below 127 through unchanged
   * and skips only the C-locale spaces among them, so the four separators
   * U+001C to U+001F are not whitespace to it.
   */
  datatype SpaceSet = StrSpaces | IntSpaces

  predicate IsSpace(sp: SpaceSet, c: char)
  {
    IsWhitespace(c) && (sp == IntSpaces ==> !('\U{001C}' <= c <= '\U{001F}'))
  }

  /** Every character of `s` at an index in `[lo, hi)` is in the set. */
  predicate SpaceBetween(sp: SpaceSet, s: string, lo: int, hi: int)
  {
    forall k :: lo <= k < hi && 0 <= k < |s| ==> IsSpace(sp, s[k])
  }

  /** The number of space characters at the front of `s`. */
  function LeadingSpace(sp: SpaceSet, s: string): (n: nat)
    ensures n <= |s|
    ensures SpaceBetween(sp, s, 0, n)
    ensures n < |s| ==> !IsSpace(sp, s[n])
  {
    if s != [] && IsSpace(sp, s[0]) then 1 + LeadingSpace(sp, s[1..]) else 0
  }

  /** The number of space characters at the end of `s`. */
  function TrailingSpace(sp: SpaceSet, s: string): (n: nat)
    ensures n <= |s|
    ensures SpaceBetween(sp, s, |s| - n, |s|)
    ensures n < |s| ==> !IsSpace(sp, s[|s| - n - 1])
  {
    if s != [] && IsSpace(sp, s[|s| - 1]) then 1 + TrailingSpace(sp, s[..|s| - 1]) else 0
  }

  /**
   * Where trimming cuts: everything before `lo` and from `hi` on is in the
   * set, and what is kept starts and ends with a character outside it.
   */
  function TrimBounds(sp: SpaceSet, s: string): (b: (nat, nat))
    ensures b.0 <= b.1 <= |s|
    ensures SpaceBetween(sp, s, 0, b.0) && SpaceBetween(sp, s, b.1, |s|)
    ensures b.0 < b.1 ==> !IsSpace(sp, s[b.0]) && !IsSpace(sp, s[b.1 - 1])
  {
    var lo := LeadingSpace(sp, s);
    var n := TrailingSpace(sp, s[lo..]);
    (lo, |s| - n)
  }

  /** `s` without the leading and trailing characters of the set. */
  function Trim(sp: SpaceSet, s: string): (r: string)
    ensures |r| <= |s|
    ensures r != [] ==> !IsSpace(sp, r[0]) && !IsSpace(sp, r[|r| - 1])
  {
    var b := TrimBounds(sp, s);
    s[b.0..b.1]
  }

  /** Python's `s.strip()`. */
  function Strip(s: string): (r: string)
    ensures |r| <= |s|
    ensures r != [] ==> !IsWhitespace(r[0]) && !IsWhitespace(r[|r| - 1])
  {
    Trim(StrSpaces, s)
  }

  /** A string with no whitespace at all is left as it is by either kind of trimming. */
  lemma TrimNoWhitespace(sp: SpaceSet, s: string)
    requires NoWhitespace(s)
    ensures Trim(sp, s) == s
  {
    var b := TrimBounds(sp, s);
  }

  // ---------------------------------------------------------------------
  // str(n) and int(s)
  // ---------------------------------------------------------------------

  predicate IsDigit(c: char)
  {
    '0' <= c <= '9'
  }

  function DigitChar(d: nat): (c: char)
    requires d < 10
    ensures IsDigit(c)
  {
    ['0', '1', '2', '3', '4', '5', '6', '7', '8', '9'][d]
  }

  function DigitValue(c: char): (d: nat)
    requires IsDigit(c)
    ensures d < 10
  {
    (c as int) - ('0' as int)
  }

  /** The decimal numeral of a natural number, without leading zeros. */
  function NatToDecimal(n: nat): (s: string)
    ensures s != []
    ensures forall k :: 0 <= k < |s| ==> IsDigit(s[k])
  {
    if n < 10 then [DigitChar(n)] else NatToDecimal(n / 10) + [DigitChar(n % 10)]
  }

  /** Python's `str(n)` for an integer `n`. */
  function IntToDecimal(n: int): (s: string)
    ensures s != [] && NoWhitespace(s)
    ensures s[0] == '-' <==> n < 0
  {
    if n < 0 then "-" + NatToDecimal(-n) else NatToDecimal(n)
  }

  /**
   * Python refuses to convert between `int` and a decimal string of more
   * than this many digits (`ValueError`), both in `str(n)` and in `int(s)`.
   */
  const MaxStrDigits: nat := 4300

  /** `str(n)` succeeds: the numeral has at most `MaxStrDigits` digits. */
  predicate WithinStrDigits(n: int)
  {
    |NatToDecimal(if n < 0 then -n else n)| <= MaxStrDigits
  }

  /** The number of digits in `s`, underscores not counted. */
  function DigitCount(s: string): (n: nat)
    ensures n <= |s|
  {
    if s == [] then 0 else (if IsDigit(s[0]) then 1 else 0) + DigitCount(s[1..])
  }

  /** The value of a non-empty string of digits and underscores, underscores ignored. */
  function DigitsValue(s: string): (v: nat)
    requires forall k :: 0 <= k < |s| ==> IsDigit(s[k]) || s[k] == '_'
  {
    if s == [] then 0
    else if s[|s| - 1] == '_' then DigitsValue(s[..|s| - 1])
    else 10 * DigitsValue(s[..|s| - 1]) + DigitValue(s[|s| - 1])
  }

  /**
   * The body Python's `int(s)` accepts after the sign: digits, with single
   * underscores allowed between two digits.
   */
  predicate IsDigitGroup(s: string)
  {
    && s != []
    && IsDigit(s[0]) && IsDigit(s[|s| - 1])
    && (forall k :: 0 <= k < |s| ==> IsDigit(s[k]) || s[k] == '_')
    && (forall k :: 0 <= k < |s| - 1 ==> !(s[k] == '_' && s[k + 1] == '_'))
  }

  /**
   * Python's `int(s)` for a string: surrounding whitespace (the `IntSpaces`
   * set) is ignored, then an optional `+` or `-` sign, then a digit group of
   * at most `MaxStrDigits` digits. `None` stands for the `ValueError` that
   * anything else raises.
   */
  function ParseInt(s: string): (r: Option<int>)
    ensures r.Some? ==> 1 <= DigitCount(s) <= MaxStrDigits
  {
    TrimDigitCount(IntSpaces, s);
    var t := Trim(IntSpaces, s);
    var signed := t != [] && (t[0] == '+' || t[0] == '-');
    var body := if signed then t[1..] else t;
    if !IsDigitGroup(body) || DigitCount(body) > MaxStrDigits then None
    else
      var v: int := DigitsValue(body);
      Some(if signed && t[0] == '-' then -v else v)
  }

  /**
   * `int(s)` rejects a string that starts with one of the separators
   * U+001C to U+001F, although `str.isspace` holds of them.
   */
  lemma ParseIntRejectsSeparator(c: char, s: string)
    requires '\U{001C}' <= c <= '\U{001F}'
    ensures ParseInt([c] + s) == None
  {
    var b := TrimBounds(IntSpaces, [c] + s);
    assert !IsSpace(IntSpaces, ([c] + s)[0]);
    assert b.0 == 0;
  }

  /** A digit group holds no whitespace. */
  lemma DigitGroupNoWhitespace(s: string)
    requires IsDigitGroup(s)
    ensures NoWhitespace(s) && NoWhitespace("-" + s)
  {
    assert forall k :: 0 <= k < |s| ==> ("-" + s)[k + 1] == s[k];
  }

  /** `int(s)` rejects a numeral of more than `MaxStrDigits` digits, signed or not. */
  lemma ParseIntRejectsLongNumeral(s: string)
    requires IsDigitGroup(s) && DigitCount(s) > MaxStrDigits
    ensures ParseInt(s) == None
    ensures ParseInt("-" + s) == None
  {
    DigitGroupNoWhitespace(s);
    RejectsTooManyDigits(s, s);
    RejectsTooManyDigits("-" + s, s);
  }

  /** `int(t)` of a whitespace-free `t` whose digits, past any sign, are too many. */
  lemma RejectsTooManyDigits(t: string, s: string)
    requires NoWhitespace(t) && s != [] && IsDigit(s[0]) && DigitCount(s) > MaxStrDigits
    requires t == s || t == "-" + s
    ensures ParseInt(t) == None
  {
    TrimNoWhitespace(IntSpaces, t);
    if t != s {
      assert t[1..] == s;
    }
  }

  /** Digits are counted piecewise over a concatenation. */
  lemma {:induction false} DigitCountAppend(a: string, b: string)
    ensures DigitCount(a + b) == DigitCount(a) + DigitCount(b)
  {
    if a != [] {
      assert (a + b)[1..] == a[1..] + b;
      DigitCountAppend(a[1..], b);
    } else {
      assert a + b == b;
    }
  }

  /** A run of whitespace holds no digit. */
  lemma {:induction false} DigitCountSpaceBetween(sp: SpaceSet, s: string, lo: nat, hi: nat)
    requires lo <= hi <= |s| && SpaceBetween(sp, s, lo, hi)
    ensures DigitCount(s[lo..hi]) == 0
    decreases hi - lo
  {
    if lo < hi {
      assert IsSpace(sp, s[lo]);
      assert s[lo..hi][1..] == s[lo + 1..hi];
      DigitCountSpaceBetween(sp, s, lo + 1, hi);
    }
  }

  /** Trimming removes no digit. */
  lemma TrimDigitCount(sp: SpaceSet, s: string)
    ensures DigitCount(Trim(sp, s)) == DigitCount(s)
  {
    var b := TrimBounds(sp, s);
    var front, kept, back := s[..b.0], s[b.0..b.1], s[b.1..];
    assert s == front + kept + back;
    DigitCountAppend(front, kept);
    DigitCountAppend(front + kept, back);
    DigitCountSpaceBetween(sp, s, 0, b.0);
    DigitCountSpaceBetween(sp, s, b.1, |s|);
    assert s[0..b.0] == front && s[b.1..|s|] == back;
  }

  /** A string of digits counts every character as a digit. */
  lemma {:induction false} DigitCountAllDigits(s: string)
    requires forall k :: 0 <= k < |s| ==> IsDigit(s[k])
    ensures DigitCount(s) == |s|
  {
    if s != [] {
      DigitCountAllDigits(s[1..]);
    }
  }

  /** A numeral written by `str(n)` is a digit group that reads back as `n`. */
  lemma {:induction false} NatToDecimalValue(n: nat)
    ensures IsDigitGroup(NatToDecimal(n))
    ensures DigitsValue(NatToDecimal(n)) == n
  {
    var s := NatToDecimal(n);
    if n >= 10 {
      NatToDecimalValue(n / 10);
      assert s[..|s| - 1] == NatToDecimal(n / 10);
    }
  }

  /** `int(s)` of an unsigned digit group with no surrounding whitespace. */
  lemma ParseUnsigned(s: string)
    requires Trim(IntSpaces, s) == s && IsDigitGroup(s) && DigitCount(s) <= MaxStrDigits
    ensures ParseInt(s) == Some(DigitsValue(s) as int)
  {
    assert IsDigit(s[0]) && s[0] != '+' && s[0] != '-';
  }

  /** `int(s)` of `-` followed by a digit group, with no surrounding whitespace. */
  lemma ParseNegative(s: string)
    requires Trim(IntSpaces, s) == s && s != [] && s[0] == '-'
    requires IsDigitGroup(s[1..]) && DigitCount(s[1..]) <= MaxStrDigits
    ensures ParseInt(s) == Some(-(DigitsValue(s[1..]) as int))
  {
  }

  /** `int(str(n)) == n` for every integer `n` that `str` can write. */
  lemma DecimalRoundTrip(n: int)
    requires WithinStrDigits(n)
    ensures ParseInt(IntToDecimal(n)) == Some(n)
  {
    var s := IntToDecimal(n);
    TrimNoWhitespace(IntSpaces, s);
    var m: nat := if n < 0 then -n else n;
    NatToDecimalValue(m);
    DigitCountAllDigits(NatToDecimal(m));
    if n < 0 {
      assert s[1..] == NatToDecimal(m);
      ParseNegative(s);
    } else {
      ParseUnsigned(s);
    }
  }
}
