/**
 * The PHP string primitives the body walker relies on: `strtolower`, the
 * truth value of a string, and the decimal rendering of an integer.
 * PHP strings are byte strings; one `char` here stands for one byte.
 */
module PhpStrings {

  /** `strtolower` on one byte: only the ASCII letters A-Z change. */
  function LowerChar(ch: char): char
  {
    if 'A' <= ch <= 'Z' then (ch as int + 32) as char else ch
  }

  /** No byte of `s` is an ASCII upper-case letter. */
  predicate LowerCased(s: string)
  {
    forall i :: 0 <= i < |s| ==> !('A' <= s[i] <= 'Z')
  }

  /** `strtolower`, byte by byte: no upper-case letter remains. */
  function ToLower(s: string): (r: string)
    ensures |r| == |s|
    ensures forall i :: 0 <= i < |s| ==> r[i] == LowerChar(s[i])
    ensures LowerCased(r)
  {
    seq(|s|, i requires 0 <= i < |s| => LowerChar(s[i]))
  }

  /** A string with no upper-case letter is returned as it is, so lower-casing twice changes nothing. */
  lemma ToLowerOfLowerCased(s: string)
    ensures LowerCased(s) ==> ToLower(s) == s
    ensures ToLower(ToLower(s)) == ToLower(s)
  {
  }

  /** PHP's conversion of a string to bool: only "" and "0" are false. */
  predicate Truthy(s: string)
  {
    s != "" && s != "0"
  }

  function DigitChar(d: nat): (ch: char)
    requires d < 10
    ensures '0' <= ch <= '9'
  {
    ('0' as int + d) as char
  }

  /** The number a string of decimal digits spells, most significant digit first. */
  function DecimalValue(s: string): nat
  {
    if s == [] then 0
    else
      var d := s[|s| - 1] as int - '0' as int;
      DecimalValue(s[..|s| - 1]) * 10 + (if 0 <= d then d else 0)
  }

  /** `(string) $n` for a non-negative integer: its decimal digits, most significant first. */
  function NatToString(n: nat): (r: string)
    ensures 1 <= |r|
    ensures forall i :: 0 <= i < |r| ==> '0' <= r[i] <= '9'
    decreases n
  {
    if n < 10 then [DigitChar(n)] else NatToString(n / 10) + [DigitChar(n % 10)]
  }

  /**
   * The digits of `n` spell `n`, and there is no leading zero: the only
   * rendering that starts with "0" is that of 0 itself.
   */
  lemma {:induction false} NatToStringValue(n: nat)
    ensures DecimalValue(NatToString(n)) == n
    ensures NatToString(n)[0] == '0' <==> n == 0
    decreases n
  {
    var r := NatToString(n);
    if n < 10 {
      assert r == [DigitChar(n)] && r[..0] == [];
    } else {
      var prefix := NatToString(n / 10);
      NatToStringValue(n / 10);
      assert r == prefix + [DigitChar(n % 10)];
      assert r[..|r| - 1] == prefix && r[|r| - 1] as int - '0' as int == n % 10;
      assert DecimalValue(r) == DecimalValue(prefix) * 10 + n % 10;
      assert r[0] == prefix[0];
    }
  }
}
