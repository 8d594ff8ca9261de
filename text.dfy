/**
 * String helpers of the bot: prefix truncation (`safe_slice`), removal of NUL
 * characters, the sanitising applied to every generated reply, and the decimal
 * rendering of an integer used inside user-visible messages.
 */
module Text {

  /** The longest reply the bot stores or returns. */
  const ReplyLimit := 4000

  const Nul: char := '\0'

  /**
   * `safe_slice(data, max_len)` on a string: Python's `data[:max_len]`.
   * A non-negative bound keeps the first `n` characters (all of them when the
   * string is shorter); a negative bound drops the last `-n` characters.
   */
  function SafeSlice(s: string, n: int): (r: string)
    ensures r <= s
    ensures 0 <= n ==> |r| == if |s| <= n then |s| else n
    ensures n < 0 ==> |r| == if |s| + n <= 0 then 0 else |s| + n
    ensures 0 <= n && |s| <= n ==> r == s
  {
    if 0 <= n then
      if |s| <= n then s else s[..n]
    else if |s| + n <= 0 then []
    else s[..|s| + n]
  }

  /** `s.replace('\0', '')`: every NUL character removed, the rest kept in order. */
  function StripNul(s: string): (r: string)
    ensures Nul !in r
    ensures |r| <= |s|
    ensures multiset(r) == multiset(s)[Nul := 0]
    ensures Nul !in s ==> r == s
  {
    if s == [] then []
    else
      assert s == [s[0]] + s[1..];
      (if s[0] == Nul then [] else [s[0]]) + StripNul(s[1..])
  }

  /** Removing NUL characters works piece by piece: it is a global replace. */
  lemma {:induction false} StripNulConcat(a: string, b: string)
    ensures StripNul(a + b) == StripNul(a) + StripNul(b)
  {
    if a == [] {
      assert a + b == b;
    } else {
      assert (a + b)[0] == a[0];
      assert (a + b)[1..] == a[1..] + b;
      StripNulConcat(a[1..], b);
    }
  }

  /**
   * The sanitised reply: NUL characters stripped, then capped at
   * `ReplyLimit` characters.
   */
  function Sanitize(content: string): (r: string)
    ensures Nul !in r
    ensures |r| <= ReplyLimit
    ensures r <= StripNul(content)
    ensures |r| == if |StripNul(content)| <= ReplyLimit then |StripNul(content)| else ReplyLimit
    ensures Nul !in content && |content| <= ReplyLimit ==> r == content
  {
    var stripped := StripNul(content);
    var r := SafeSlice(stripped, ReplyLimit);
    assert forall i :: 0 <= i < |r| ==> r[i] == stripped[i];
    r
  }

  /** A sanitised reply is left alone by a second sanitising. */
  lemma SanitizeIdempotent(content: string)
    ensures Sanitize(Sanitize(content)) == Sanitize(content)
  {
  }

  function DigitChar(d: nat): (c: char)
    requires d < 10
    ensures '0' <= c <= '9'
    ensures c as int - '0' as int == d
  {
    ['0', '1', '2', '3', '4', '5', '6', '7', '8', '9'][d]
  }

  /** Python's `str(n)` for an integer. */
  function Decimal(n: int): (s: string)
    ensures |s| >= 1
    ensures n >= 0 ==> forall i :: 0 <= i < |s| ==> '0' <= s[i] <= '9'
    ensures n >= 0 ==> (s[0] == '0' <==> n == 0)
    ensures n < 0 ==> s[0] == '-'
    decreases if n < 0 then 1 - n else n
  {
    if n < 0 then "-" + Decimal(-n)
    else if n < 10 then [DigitChar(n)]
    else Decimal(n / 10) + [DigitChar(n % 10)]
  }

  /** The value of a string of decimal digits. */
  function DigitsValue(s: string): int
  {
    if s == [] then 0 else 10 * DigitsValue(s[..|s| - 1]) + (s[|s| - 1] as int - '0' as int)
  }

  /** Reading back a rendered non-negative integer gives the integer. */
  lemma {:induction false} DecimalRoundTrip(n: nat)
    ensures DigitsValue(Decimal(n)) == n
  {
    if n >= 10 {
      var s := Decimal(n);
      assert s[..|s| - 1] == Decimal(n / 10);
      DecimalRoundTrip(n / 10);
    }
  }
}
