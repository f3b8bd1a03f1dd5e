/**
 * The two library operations on text the menu program relies on:
 * java.lang.String.trim, applied to every line read from the console, and
 * java.lang.Integer.parseInt, applied to the countdown's argument; plus the
 * decimal rendering of a non-negative number that String.format uses for %d in a locale with ASCII digits.
 */
module JavaText {
  import opened Wrappers

  /** String.trim removes every leading and trailing character whose code is at most U+0020. */
  predicate IsTrimmable(c: char) {
    c <= ' '
  }

  predicate AllTrimmable(s: string) {
    forall k :: 0 <= k < |s| ==> IsTrimmable(s[k])
  }

  /** The first index at or after `i` that holds no trimmable character (|s| if none). */
  function SkipLeading(s: string, i: nat): (st: nat)
    requires i <= |s|
    ensures i <= st <= |s| && (st == |s| || !IsTrimmable(s[st]))
    decreases |s| - i
  {
    if i < |s| && IsTrimmable(s[i]) then SkipLeading(s, i + 1) else i
  }

  /** The end `len` of s[st..len] once trailing trimmable characters are dropped, but not below `st`. */
  function SkipTrailing(s: string, st: nat, len: nat): (e: nat)
    requires st <= len <= |s|
    ensures st <= e <= len && (e == st || !IsTrimmable(s[e - 1]))
    decreases len
  {
    if st < len && IsTrimmable(s[len - 1]) then SkipTrailing(s, st, len - 1) else len
  }

  /** String.trim: the part of `s` between its leading and its trailing trimmable characters. */
  function Trim(s: string): (t: string)
    ensures |t| <= |s|
    ensures t == [] || (!IsTrimmable(t[0]) && !IsTrimmable(t[|t| - 1]))
  {
    var st := SkipLeading(s, 0);
    s[st..SkipTrailing(s, st, |s|)]
  }

  /** SkipLeading passes over trimmable characters only. */
  lemma {:induction false} SkipLeadingBlanks(s: string, i: nat, k: nat)
    requires i <= |s| && i <= k < SkipLeading(s, i)
    ensures IsTrimmable(s[k])
    decreases |s| - i
  {
    if k > i {
      SkipLeadingBlanks(s, i + 1, k);
    }
  }

  /** SkipTrailing passes over trimmable characters only. */
  lemma {:induction false} SkipTrailingBlanks(s: string, st: nat, len: nat, k: nat)
    requires st <= len <= |s| && SkipTrailing(s, st, len) <= k < len
    ensures IsTrimmable(s[k])
    decreases len
  {
    if k < len - 1 {
      SkipTrailingBlanks(s, st, len - 1, k);
    }
  }

  /**
   * The trimmed line is the slice of `s` after its leading trimmable characters;
   * what is cut off before and after it is all trimmable.
   */
  lemma TrimCuts(s: string)
    ensures var st := SkipLeading(s, 0); var e := SkipTrailing(s, st, |s|);
      Trim(s) == s[st..e] && AllTrimmable(s[..st]) && AllTrimmable(s[e..])
  {
    var st := SkipLeading(s, 0);
    var e := SkipTrailing(s, st, |s|);
    forall k | 0 <= k < st
      ensures IsTrimmable(s[..st][k])
    {
      SkipLeadingBlanks(s, 0, k);
    }
    forall k | 0 <= k < |s| - e
      ensures IsTrimmable(s[e..][k])
    {
      SkipTrailingBlanks(s, st, |s|, e + k);
    }
  }

  lemma {:induction false} SkipLeadingPadding(s: string, i: nat, j: nat)
    requires i <= j <= |s| && (forall k :: i <= k < j ==> IsTrimmable(s[k]))
    requires j == |s| || !IsTrimmable(s[j])
    ensures SkipLeading(s, i) == j
    decreases j - i
  {
    if i < j {
      SkipLeadingPadding(s, i + 1, j);
    }
  }

  lemma {:induction false} SkipTrailingPadding(s: string, st: nat, e: nat, len: nat)
    requires st <= e <= len <= |s| && (forall k :: e <= k < len ==> IsTrimmable(s[k]))
    requires e == st || !IsTrimmable(s[e - 1])
    ensures SkipTrailing(s, st, len) == e
    decreases len
  {
    if e < len {
      SkipTrailingPadding(s, st, e, len - 1);
    }
  }

  /**
   * Trimming a token surrounded by any padding of trimmable characters gives back
   * exactly that token, provided the token itself neither starts nor ends with one.
   */
  lemma TrimPadded(p: string, t: string, q: string)
    requires AllTrimmable(p) && AllTrimmable(q)
    requires t == [] || (!IsTrimmable(t[0]) && !IsTrimmable(t[|t| - 1]))
    ensures Trim(p + t + q) == t
  {
    var s := p + t + q;
    var st := if t == [] then |s| else |p|;
    forall k | 0 <= k < st
      ensures IsTrimmable(s[k])
    {
      if k < |p| { assert s[k] == p[k]; } else { assert s[k] == q[k - |p| - |t|]; }
    }
    if t != [] {
      assert s[|p|] == t[0];
    }
    SkipLeadingPadding(s, 0, st);
    var e := st + |t|;
    forall k | e <= k < |s|
      ensures IsTrimmable(s[k])
    {
      assert s[k] == q[k - |p| - |t|];
    }
    if t != [] {
      assert s[e - 1] == t[|t| - 1];
    }
    SkipTrailingPadding(s, st, e, |s|);
    assert s[st..e] == t;
  }

  /** Trimming twice is trimming once. */
  lemma TrimIdempotent(s: string)
    ensures Trim(Trim(s)) == Trim(s)
  {
    var t := Trim(s);
    assert [] + t + [] == t;
    TrimPadded([], t, []);
  }

  // ---------------------------------------------------------------- numbers

  /** The range of a Java `int`. */
  const MinInt: int := -0x8000_0000
  const MaxInt: int := 0x7fff_ffff

  predicate IsDigit(c: char) {
    '0' <= c <= '9'
  }

  predicate AllDigits(s: string) {
    forall k :: 0 <= k < |s| ==> IsDigit(s[k])
  }

  function DigitValue(c: char): (d: nat)
    requires IsDigit(c)
    ensures d < 10
  {
    c as int - '0' as int
  }

  function DigitChar(d: nat): (c: char)
    requires d < 10
    ensures IsDigit(c) && DigitValue(c) == d
  {
    ('0' as int + d) as char
  }

  /** The value of a string of decimal digits, most significant first. */
  function DigitsValue(s: string): nat
    requires AllDigits(s)
  {
    if s == [] then 0 else DigitsValue(s[..|s| - 1]) * 10 + DigitValue(s[|s| - 1])
  }

  /** The shortest decimal rendering of `n`, as Integer.toString writes it and %d does in a locale with ASCII digits. */
  function Decimal(n: nat): (s: string)
    ensures |s| >= 1 && AllDigits(s)
    ensures |s| > 1 ==> s[0] != '0'
  {
    if n < 10 then [DigitChar(n)] else Decimal(n / 10) + [DigitChar(n % 10)]
  }

  lemma {:induction false} DecimalValue(n: nat)
    ensures DigitsValue(Decimal(n)) == n
  {
    if n >= 10 {
      var s := Decimal(n);
      assert s[..|s| - 1] == Decimal(n / 10);
      DecimalValue(n / 10);
    }
  }

  /** Numbers below 10, 100 and 1000 have at most one, two and three digits. */
  lemma {:induction false} DecimalLength(n: nat)
    ensures n < 10 ==> |Decimal(n)| == 1
    ensures n < 100 ==> |Decimal(n)| <= 2
    ensures n < 1000 ==> |Decimal(n)| <= 3
  {
    if n >= 10 {
      DecimalLength(n / 10);
    }
  }

  /**
   * Integer.parseInt(s) in radix 10: an optional '-' or '+' sign, then at least one
   * decimal digit and nothing else; a value outside the `int` range, like any other
   * malformed text, raises NumberFormatException, modelled as None.
   */
  function ParseInt(s: string): (r: Option<int>)
    ensures r.Some? ==> MinInt <= r.value <= MaxInt
    ensures r.Some? ==> |s| >= 1 && AllDigits(s[1..]) && (IsDigit(s[0]) || s[0] == '-' || s[0] == '+')
  {
    if s == [] then None
    else
      var signed := s[0] == '-' || s[0] == '+';
      var digits := if signed then s[1..] else s;
      if digits == [] || !AllDigits(digits) then None
      else
        var magnitude: int := DigitsValue(digits);
        var v := if s[0] == '-' then -magnitude else magnitude;
        if MinInt <= v <= MaxInt then Some(v) else None
  }

  /** Every non-negative `int`, written in decimal, parses back to itself. */
  lemma ParseDecimal(n: nat)
    requires n <= MaxInt
    ensures ParseInt(Decimal(n)) == Some(n)
    ensures ParseInt("+" + Decimal(n)) == Some(n)
  {
    DecimalValue(n);
    assert ("+" + Decimal(n))[1..] == Decimal(n);
  }

  /** Every negative `int`, written as '-' and its magnitude in decimal, parses back to itself. */
  lemma ParseNegativeDecimal(n: nat)
    requires 0 < n <= -MinInt
    ensures ParseInt("-" + Decimal(n)) == Some(-(n as int))
  {
    DecimalValue(n);
    assert ("-" + Decimal(n))[1..] == Decimal(n);
  }

  /** A number just outside the `int` range is rejected although it is well formed. */
  lemma ParseOutOfRange()
    ensures ParseInt(Decimal(MaxInt + 1)) == None
    ensures ParseInt("-" + Decimal(-MinInt + 1)) == None
  {
    DecimalValue(MaxInt + 1);
    DecimalValue(-MinInt + 1);
    assert ("-" + Decimal(-MinInt + 1))[1..] == Decimal(-MinInt + 1);
  }

  /** Any character other than a digit, except a sign in front, makes the text malformed. */
  lemma ParseRejectsNonDigit(s: string, k: nat)
    requires k < |s| && !IsDigit(s[k])
    requires k > 0 || (s[0] != '-' && s[0] != '+')
    ensures ParseInt(s) == None
  {
    if k > 0 && (s[0] == '-' || s[0] == '+') {
      assert s[1..][k - 1] == s[k];
    }
  }

  /** The empty string and a lone sign are malformed. */
  lemma ParseRejectsEmpty()
    ensures ParseInt("") == None && ParseInt("-") == None && ParseInt("+") == None
  {
  }
}
