/** The two text conversions the generator applies: `str(n)` for a natural
    number and `str.upper()` for display names and sex codes. */
module Text {

  /** The decimal digit for `d`. */
  function Digit(d: nat): char
    requires d < 10
  {
    (48 + d) as char
  }

  /** `str(n)`: the decimal numeral of `n`, without leading zeros. */
  function DecimalString(n: nat): (s: string)
    ensures 1 <= |s|
    ensures 10 <= n ==> 2 <= |s|
    decreases n
  {
    if n < 10 then [Digit(n)] else DecimalString(n / 10) + [Digit(n % 10)]
  }

  /** Distinct numbers have distinct numerals. */
  lemma {:induction false} DecimalStringInjective(a: nat, b: nat)
    requires DecimalString(a) == DecimalString(b)
    ensures a == b
    decreases a
  {
    var s := DecimalString(a);
    if a < 10 && b < 10 {
      assert Digit(a) == s[0] == Digit(b);
      assert (48 + a) as char as int == 48 + a;
    } else if a >= 10 && b >= 10 {
      var n := |s|;
      assert DecimalString(a / 10) == s[..n - 1] == DecimalString(b / 10);
      assert Digit(a % 10) == s[n - 1] == Digit(b % 10);
      assert (48 + a % 10) as char as int == 48 + a % 10;
      DecimalStringInjective(a / 10, b / 10);
    }
  }

  /** The upper-case form of one character, for the ASCII and Latin-1 letters
      (plus the two Latin-1 letters whose capital lies outside Latin-1). */
  function UpperChar(c: char): (u: char)
    ensures 'A' <= u <= 'Z' <==> 'A' <= c <= 'Z' || 'a' <= c <= 'z'
  {
    var k := c as int;
    if 97 <= k <= 122 || (224 <= k <= 254 && k != 247) then (k - 32) as char
    else if k == 255 then 376 as char
    else if k == 181 then 924 as char
    else c
  }

  /** `s.upper()`, character by character. */
  function Upper(s: string): (u: string)
    ensures |u| == |s|
    ensures forall i :: 0 <= i < |s| ==> ('A' <= u[i] <= 'Z' <==> 'A' <= s[i] <= 'Z' || 'a' <= s[i] <= 'z')
  {
    seq(|s|, i requires 0 <= i < |s| => UpperChar(s[i]))
  }

  /** Upper-casing twice is upper-casing once: every display name the
      generator emits is already in upper case. */
  lemma UpperIdempotent(s: string)
    ensures Upper(Upper(s)) == Upper(s)
  {
    forall i | 0 <= i < |s|
      ensures UpperChar(UpperChar(s[i])) == UpperChar(s[i])
    {
      var k := s[i] as int;
      if 97 <= k <= 122 || (224 <= k <= 254 && k != 247) {
        assert (k - 32) as char as int == k - 32;
      } else if k == 255 {
        assert 376 as char as int == 376;
      } else if k == 181 {
        assert 924 as char as int == 924;
      }
    }
  }

  /** The comparison `s.upper() == c` for a capital letter code `c` accepts
      exactly the code in either case. */
  lemma UpperMatchesLetterCode(s: string, c: char)
    requires 'A' <= c <= 'Z'
    ensures Upper(s) == [c] <==> s == [c] || s == [(c as int + 32) as char]
  {
    if |s| == 1 {
      var k := s[0] as int;
      assert Upper(s) == [UpperChar(s[0])];
      if 97 <= k <= 122 || (224 <= k <= 254 && k != 247) {
        assert (k - 32) as char as int == k - 32;
        assert ((c as int + 32) as char) as int == c as int + 32;
      } else if k == 255 {
        assert 376 as char as int == 376;
      } else if k == 181 {
        assert 924 as char as int == 924;
      }
    }
  }
}
