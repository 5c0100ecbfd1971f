/** Plain string helpers shared by the whole model. A Python `str` is a `seq<char>`
    holding one element per code point, so `|s|` is Python's `len(s)`. */
module Strings {
  import opened Wrappers

  /** `p` occurs in `s` starting at index `i`. */
  predicate OccursAt(s: string, p: string, i: int) {
    0 <= i && i + |p| <= |s| && s[i..i + |p|] == p
  }

  /** Python's substring test `p in s`. */
  predicate Contains(s: string, p: string) {
    exists i :: 0 <= i <= |s| - |p| && OccursAt(s, p, i)
  }

  predicate StartsWith(s: string, p: string) {
    |p| <= |s| && s[..|p|] == p
  }

  predicate EndsWith(s: string, p: string) {
    |p| <= |s| && s[|s| - |p|..] == p
  }

  /** A common prefix keeps a prefix relation. */
  lemma StartsWithAfter(a: string, s: string, p: string)
    requires StartsWith(s, p)
    ensures StartsWith(a + s, a + p)
  {
    var w := (a + s)[..|a| + |p|];
    forall k | 0 <= k < |w|
      ensures w[k] == (a + p)[k]
    {
      if k >= |a| {
        assert w[k] == s[k - |a|] == p[k - |a|];
      }
    }
  }

  /** Putting text in front keeps a suffix relation. */
  lemma EndsWithAfter(a: string, s: string, p: string)
    requires EndsWith(s, p)
    ensures EndsWith(a + s, p)
  {
    var w := (a + s)[|a + s| - |p|..];
    forall k | 0 <= k < |w|
      ensures w[k] == p[k]
    {
      assert w[k] == s[|s| - |p| + k];
    }
  }

  /** Text joined after `a` and a space ends with the space and that text. */
  lemma EndsWithJoined(a: string, b: string)
    ensures EndsWith(a + " " + b, " " + b)
  {
    assert a + " " + b == a + (" " + b);
    EndsWithAfter(a, " " + b, " " + b);
  }

  /** The middle of `a + w + b` is `w`. */
  lemma Infix(a: string, w: string, b: string)
    ensures (a + w + b)[|a|..|a| + |w|] == w
  {
  }

  /** A string that starts with `p + q` starts with `p`. */
  lemma StartsWithPart(s: string, p: string, q: string)
    requires StartsWith(s, p + q)
    ensures StartsWith(s, p)
  {
    assert s[..|p|] == (p + q)[..|p|];
  }

  /** A string that ends with `p + q` ends with `q`. */
  lemma EndsWithPart(s: string, p: string, q: string)
    requires EndsWith(s, p + q)
    ensures EndsWith(s, q)
  {
    var w := s[|s| - |q|..];
    forall k | 0 <= k < |q|
      ensures w[k] == q[k]
    {
      assert w[k] == s[|s| - |p + q| + |p| + k] == (p + q)[|p| + k];
    }
  }

  /** Python's `s[:n]`: the first `n` code points, or all of `s` when it is shorter. */
  function Take(s: string, n: nat): (r: string)
    ensures |r| <= n && |r| <= |s|
    ensures |r| == n || |r| == |s|
    ensures StartsWith(s, r)
  {
    if |s| <= n then s else s[..n]
  }

  /** Python's `sep.join(parts)`. */
  function Join(sep: string, parts: seq<string>): string
  {
    if |parts| == 0 then ""
    else if |parts| == 1 then parts[0]
    else parts[0] + sep + Join(sep, parts[1..])
  }

  /** Joining grows by one separator per extra part. */
  lemma {:induction false} JoinLength(sep: string, parts: seq<string>)
    requires |parts| > 0
    ensures |Join(sep, parts)| == SumLengths(parts) + (|parts| - 1) * |sep|
    decreases |parts|
  {
    if |parts| > 1 {
      JoinLength(sep, parts[1..]);
    }
  }

  function SumLengths(parts: seq<string>): nat
  {
    if |parts| == 0 then 0 else |parts[0]| + SumLengths(parts[1..])
  }

  /** One decimal digit. */
  function DigitChar(d: nat): (c: char)
    requires d < 10
    ensures '0' <= c <= '9'
  {
    "0123456789"[d]
  }

  function DigitValue(c: char): (d: nat)
    requires '0' <= c <= '9'
    ensures d < 10
  {
    (c as int - '0' as int) as nat
  }

  predicate IsDigits(s: string) {
    |s| > 0 && forall i :: 0 <= i < |s| ==> '0' <= s[i] <= '9'
  }

  /** Base-10 digits of a natural number, most significant first, no leading zeros. */
  function NatDecimal(n: nat): (r: string)
    ensures IsDigits(r)
    ensures |r| > 1 ==> r[0] != '0'
    decreases n
  {
    if n < 10 then [DigitChar(n)] else NatDecimal(n / 10) + [DigitChar(n % 10)]
  }

  /** Python's `str(n)` (also what an f-string does with an int). */
  function Decimal(n: int): string
  {
    if n < 0 then "-" + NatDecimal(-n) else NatDecimal(n)
  }

  function ParseDigits(s: string): nat
    requires IsDigits(s)
    decreases |s|
  {
    if |s| == 1 then DigitValue(s[0])
    else ParseDigits(s[..|s| - 1]) * 10 + DigitValue(s[|s| - 1])
  }

  /** Python's `int(s)` restricted to what `str` produces for an int. */
  function ParseDecimal(s: string): Option<int>
  {
    if |s| > 0 && s[0] == '-' && IsDigits(s[1..]) then Some(-(ParseDigits(s[1..]) as int))
    else if IsDigits(s) then Some(ParseDigits(s) as int)
    else None
  }

  lemma {:induction false} ParseNatDecimal(n: nat)
    ensures ParseDigits(NatDecimal(n)) == n
    decreases n
  {
    if n >= 10 {
      var d := NatDecimal(n / 10);
      var s := d + [DigitChar(n % 10)];
      assert s[..|s| - 1] == d;
      ParseNatDecimal(n / 10);
    }
  }

  /** `int(str(n)) == n`: the decimal rendering loses nothing. */
  lemma DecimalRoundTrip(n: int)
    ensures ParseDecimal(Decimal(n)) == Some(n)
  {
    var d := NatDecimal(if n < 0 then -n else n);
    ParseNatDecimal(if n < 0 then -n else n);
    if n < 0 {
      var s := "-" + d;
      assert s[0] == '-' && s[1..] == d;
    } else {
      assert d[0] != '-';
    }
  }
}
