/** The few java.lang.String behaviours the post service relies on:
    `trim`, `endsWith` and `String.valueOf(long)`, plus a decimal reader
    used only to state what `String.valueOf(long)` writes. */
module JavaText {
  import opened Wrappers

  /** `String.trim` removes every character whose code is at most U+0020. */
  predicate IsTrimmable(c: char) {
    c <= ' '
  }

  /** The first index at or after `i` that holds a kept character, or |s|. */
  function KeptStart(s: string, i: nat): (n: nat)
    requires i <= |s|
    decreases |s| - i
    ensures i <= n <= |s|
    ensures forall k :: i <= k < n ==> IsTrimmable(s[k])
    ensures n < |s| ==> !IsTrimmable(s[n])
  {
    if i == |s| || !IsTrimmable(s[i]) then i else KeptStart(s, i + 1)
  }

  /** The index just after the last kept character before index `j`, or 0. */
  function KeptEnd(s: string, j: nat): (n: nat)
    requires j <= |s|
    ensures n <= j
    ensures forall k :: n <= k < j ==> IsTrimmable(s[k])
    ensures 0 < n ==> !IsTrimmable(s[n - 1])
  {
    if j == 0 || !IsTrimmable(s[j - 1]) then j else KeptEnd(s, j - 1)
  }

  /** Number of removable characters at the front of `s`. */
  function LeadingCount(s: string): (n: nat)
    ensures n <= |s|
    ensures forall k :: 0 <= k < n ==> IsTrimmable(s[k])
    ensures n < |s| ==> !IsTrimmable(s[n])
  {
    KeptStart(s, 0)
  }

  /** Number of removable characters at the back of `s`. */
  function TrailingCount(s: string): (n: nat)
    ensures n <= |s|
    ensures forall k :: |s| - n <= k < |s| ==> IsTrimmable(s[k])
    ensures n < |s| ==> !IsTrimmable(s[|s| - 1 - n])
  {
    |s| - KeptEnd(s, |s|)
  }

  /** `String.trim`: drops the removable characters at both ends, so what is
      left, if anything, starts and ends with a kept character. */
  function Trim(s: string): (r: string)
    ensures |r| <= |s|
    ensures r != [] ==> !IsTrimmable(r[0]) && !IsTrimmable(r[|r| - 1])
  {
    var lead := LeadingCount(s);
    if lead == |s| then [] else s[lead..|s| - TrailingCount(s)]
  }

  /** `Trim` keeps a contiguous slice of `s` and cuts off only removable
      characters. */
  lemma TrimFacts(s: string)
    ensures LeadingCount(s) + |Trim(s)| <= |s|
    ensures forall k :: 0 <= k < |Trim(s)| ==> Trim(s)[k] == s[LeadingCount(s) + k]
    ensures forall k :: 0 <= k < LeadingCount(s) ==> IsTrimmable(s[k])
    ensures forall k :: LeadingCount(s) + |Trim(s)| <= k < |s| ==> IsTrimmable(s[k])
  {
    var lead := LeadingCount(s);
    if lead < |s| {
      var trail := TrailingCount(s);
      assert !IsTrimmable(s[lead]);
      assert !(|s| - trail <= lead);
      assert Trim(s) == s[lead..|s| - trail];
    }
  }

  /** `Trim` gives "" exactly when every character of `s` is removable. */
  lemma TrimEmptyIff(s: string)
    ensures Trim(s) == [] <==> forall k :: 0 <= k < |s| ==> IsTrimmable(s[k])
  {
    var lead := LeadingCount(s);
    if lead < |s| {
      var trail := TrailingCount(s);
      assert !IsTrimmable(s[lead]);
      assert !(|s| - trail <= lead);
      assert |Trim(s)| == |s| - trail - lead;
    }
  }

  /** A string with nothing removable at either end is left as it is. */
  lemma TrimKeepsTrimmed(s: string)
    requires s == [] || (!IsTrimmable(s[0]) && !IsTrimmable(s[|s| - 1]))
    ensures Trim(s) == s
  {
    if s != [] {
      assert LeadingCount(s) == 0;
      assert TrailingCount(s) == 0;
    }
  }

  /** Trimming twice is trimming once. */
  lemma TrimIdempotent(s: string)
    ensures Trim(Trim(s)) == Trim(s)
  {
    TrimKeepsTrimmed(Trim(s));
  }

  /** `String.endsWith`, which compares characters exactly (case-sensitively). */
  predicate EndsWith(s: string, suffix: string) {
    |suffix| <= |s| && s[|s| - |suffix|..] == suffix
  }

  /** `s` ends with `suffix` exactly when `s` is some text followed by `suffix`. */
  lemma EndsWithIff(s: string, suffix: string)
    ensures EndsWith(s, suffix) <==> exists prefix :: prefix + suffix == s
  {
    if EndsWith(s, suffix) {
      var prefix := s[..|s| - |suffix|];
      assert prefix + suffix == s;
    }
    forall prefix | prefix + suffix == s
      ensures EndsWith(s, suffix)
    {
      assert s[|s| - |suffix|..] == suffix;
    }
  }

  predicate IsDigit(c: char) {
    '0' <= c <= '9'
  }

  function DigitChar(d: nat): (c: char)
    requires d < 10
    ensures IsDigit(c)
  {
    ('0' as int + d) as char
  }

  function DigitValue(c: char): (d: nat)
    requires IsDigit(c)
    ensures d < 10
  {
    c as int - '0' as int
  }

  /** Decimal digits of `n`, most significant first, without leading zeros. */
  function NatToDecimal(n: nat): (s: string)
    ensures |s| >= 1
    ensures forall k :: 0 <= k < |s| ==> IsDigit(s[k])
    ensures s[0] == '0' ==> n == 0
  {
    if n < 10 then [DigitChar(n)] else NatToDecimal(n / 10) + [DigitChar(n % 10)]
  }

  /** `String.valueOf(long)`: an optional minus sign followed by the digits. */
  function LongToString(n: int): (s: string)
    ensures |s| >= 1
    ensures forall k :: 0 <= k < |s| ==> !IsTrimmable(s[k])
    ensures s[0] == '-' <==> n < 0
  {
    if n < 0 then "-" + NatToDecimal(-n) else NatToDecimal(n)
  }

  predicate AllDigits(s: string) {
    forall k :: 0 <= k < |s| ==> IsDigit(s[k])
  }

  function DecimalToNat(s: string): nat
    requires AllDigits(s)
  {
    if s == [] then 0 else DecimalToNat(s[..|s| - 1]) * 10 + DigitValue(s[|s| - 1])
  }

  /** Reads an optional minus sign and at least one digit, as `Long.parseLong`
      does for values in range. */
  function ParseLong(s: string): Option<int> {
    if s == [] then None
    else if s[0] == '-' then
      if |s| > 1 && AllDigits(s[1..]) then Some(0 - DecimalToNat(s[1..]) as int) else None
    else if AllDigits(s) then Some(DecimalToNat(s))
    else None
  }

  lemma {:induction false} NatToDecimalRoundTrip(n: nat)
    ensures DecimalToNat(NatToDecimal(n)) == n
  {
    if n >= 10 {
      var s := NatToDecimal(n);
      NatToDecimalRoundTrip(n / 10);
      assert s[..|s| - 1] == NatToDecimal(n / 10);
      assert DigitValue(s[|s| - 1]) == n % 10;
    }
  }

  /** `String.valueOf(long)` loses nothing: the text reads back as the number. */
  lemma LongToStringRoundTrip(n: int)
    ensures ParseLong(LongToString(n)) == Some(n)
  {
    if n < 0 {
      ParseNegative(NatToDecimal(-n));
      NatToDecimalRoundTrip(-n);
    } else {
      ParseDigits(NatToDecimal(n));
      NatToDecimalRoundTrip(n);
    }
  }

  /** A minus sign followed by digits reads as the negated number. */
  lemma ParseNegative(digits: string)
    requires |digits| >= 1 && AllDigits(digits)
    ensures ParseLong("-" + digits) == Some(0 - DecimalToNat(digits) as int)
  {
    var s := "-" + digits;
    assert s[0] == '-' && s[1..] == digits;
  }

  /** Digits alone read as their number. */
  lemma ParseDigits(digits: string)
    requires |digits| >= 1 && AllDigits(digits)
    ensures ParseLong(digits) == Some(DecimalToNat(digits))
  {
    assert IsDigit(digits[0]);
  }

  /** Distinct numbers are written as distinct texts. */
  lemma LongToStringInjective(a: int, b: int)
    ensures LongToString(a) == LongToString(b) ==> a == b
  {
    LongToStringRoundTrip(a);
    LongToStringRoundTrip(b);
  }

  /** What `String.valueOf(long)` writes is already trimmed. */
  lemma LongToStringIsTrimmed(n: int)
    ensures Trim(LongToString(n)) == LongToString(n)
  {
    TrimKeepsTrimmed(LongToString(n));
  }
}
