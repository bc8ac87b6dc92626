/** Small shared vocabulary: an Option type, the string tests that stand in for the
    source's regular expressions, ASCII lower-casing and decimal rendering of naturals. */
module Common {

  datatype Option<T> = None | Some(value: T)

  /** `Response.ok` of the Fetch API: the status is in the 2xx range. */
  predicate IsOk(status: int) {
    200 <= status <= 299
  }

  /** `s` begins with `prefix` (JavaScript `startsWith`, or a regex anchored with `^`). */
  predicate StartsWith(s: string, prefix: string) {
    |prefix| <= |s| && s[..|prefix|] == prefix
  }

  /** `s` ends with `suffix` (a regex anchored with `$`). */
  predicate EndsWith(s: string, suffix: string) {
    |suffix| <= |s| && s[|s| - |suffix|..] == suffix
  }

  /** `sub` occurs somewhere in `s` (an unanchored regex over a literal). */
  predicate Contains(s: string, sub: string)
    decreases |s|
  {
    StartsWith(s, sub) || (|s| > 0 && Contains(s[1..], sub))
  }

  /** `sub` sits in `s` starting at position `i`. */
  predicate OccursAt(s: string, sub: string, i: int) {
    0 <= i <= |s| - |sub| && s[i..i + |sub|] == sub
  }

  /** The executable search agrees with the positional definition of "occurs in". */
  lemma {:induction false} ContainsIff(s: string, sub: string)
    ensures Contains(s, sub) <==> exists i :: OccursAt(s, sub, i)
    decreases |s|
  {
    if StartsWith(s, sub) {
      assert OccursAt(s, sub, 0);
    } else if |s| == 0 {
      // `sub` is non-empty here, so it fits nowhere in the empty string
    } else {
      ContainsIff(s[1..], sub);
      if Contains(s[1..], sub) {
        var i :| OccursAt(s[1..], sub, i);
        OccursShift(s, sub, i + 1);
      } else {
        forall i | 0 <= i <= |s| - |sub| ensures !OccursAt(s, sub, i) {
          if i == 0 {
            assert s[..|sub|] == s[i..i + |sub|];
          } else {
            OccursShift(s, sub, i);
          }
        }
      }
    }
  }

  /** A string lacking one character of `sub` does not contain `sub`. */
  lemma MissingChar(s: string, sub: string, k: int)
    requires 0 <= k < |sub| && sub[k] !in s
    ensures !Contains(s, sub)
  {
    ContainsIff(s, sub);
    forall i | 0 <= i <= |s| - |sub| ensures !OccursAt(s, sub, i) {
      assert s[i..i + |sub|][k] == s[i + k];
    }
  }

  /** A string whose last character differs from that of `suffix` does not end with it. */
  lemma LastCharDiffers(s: string, suffix: string)
    requires 0 < |suffix| <= |s| && s[|s| - 1] != suffix[|suffix| - 1]
    ensures !EndsWith(s, suffix)
  {
    assert s[|s| - |suffix|..][|suffix| - 1] == s[|s| - 1];
  }

  /** An occurrence past the first character is an occurrence in the tail. */
  lemma OccursShift(s: string, sub: string, i: int)
    requires |s| > 0 && i >= 1
    ensures OccursAt(s, sub, i) <==> OccursAt(s[1..], sub, i - 1)
  {
    if i <= |s| - |sub| {
      assert s[1..][i - 1..i - 1 + |sub|] == s[i..i + |sub|];
    }
  }

  /** One more element of a prefix. */
  lemma PrefixSnoc<T>(s: seq<T>, i: nat)
    requires i < |s|
    ensures s[..i + 1] == s[..i] + [s[i]]
  {
  }

  /** `String.prototype.toLowerCase` restricted to ASCII letters; every other character is kept. */
  function AsciiLower(s: string): (r: string)
    ensures |r| == |s|
    ensures forall i :: 0 <= i < |s| ==>
      r[i] == if 'A' <= s[i] <= 'Z' then (s[i] as int + 32) as char else s[i]
  {
    if s == [] then []
    else [if 'A' <= s[0] <= 'Z' then (s[0] as int + 32) as char else s[0]] + AsciiLower(s[1..])
  }

  predicate IsDigit(c: char) {
    '0' <= c <= '9'
  }

  function DigitValue(c: char): nat
    requires IsDigit(c)
  {
    c as int - '0' as int
  }

  /** The decimal rendering of a natural number, as JavaScript prints an integer. */
  function NatToString(n: nat): (r: string)
    ensures |r| >= 1
    ensures forall i :: 0 <= i < |r| ==> IsDigit(r[i])
    ensures |r| > 1 ==> r[0] != '0'
    decreases n
  {
    if n < 10 then [('0' as int + n) as char]
    else NatToString(n / 10) + [('0' as int + n % 10) as char]
  }

  /** Reading a string of digits back as a number: the inverse of NatToString. */
  function DecimalValue(s: string): nat
    requires forall i :: 0 <= i < |s| ==> IsDigit(s[i])
  {
    if s == [] then 0 else 10 * DecimalValue(s[..|s| - 1]) + DigitValue(s[|s| - 1])
  }

  lemma {:induction false} DecimalRoundTrip(n: nat)
    ensures DecimalValue(NatToString(n)) == n
    decreases n
  {
    if n >= 10 {
      var r := NatToString(n);
      DecimalRoundTrip(n / 10);
      assert r[..|r| - 1] == NatToString(n / 10);
    }
  }
}
