/** Decimal numerals and small string utilities shared by the request
    builders, the title parser and the file-name formatter. */
module Text {
  import opened Results

  predicate IsDigit(c: char) {
    '0' <= c <= '9'
  }

  predicate AllDigits(s: string) {
    forall i :: 0 <= i < |s| ==> IsDigit(s[i])
  }

  function DigitValue(c: char): (d: nat)
    requires IsDigit(c)
    ensures d < 10
  {
    (c as int) - ('0' as int)
  }

  function DigitChar(d: nat): (c: char)
    requires d < 10
    ensures IsDigit(c) && DigitValue(c) == d
  {
    (('0' as int) + d) as char
  }

  /** The number a run of decimal digits denotes, most significant digit
      first; leading zeros contribute nothing. */
  function DigitsValue(s: string): nat
    requires AllDigits(s)
  {
    if |s| == 0 then 0 else 10 * DigitsValue(s[..|s| - 1]) + DigitValue(s[|s| - 1])
  }

  /** A numeral as `Number.prototype.toString` writes a non-negative integer:
      at least one digit, and no leading zero unless the number is zero. */
  predicate Canonical(s: string) {
    && |s| >= 1
    && AllDigits(s)
    && (s[0] == '0' ==> |s| == 1)
  }

  function NatToString(n: nat): (s: string)
    ensures |s| >= 1 && AllDigits(s)
    ensures n < 10 <==> |s| == 1
    decreases n
  {
    if n < 10 then [DigitChar(n)] else NatToString(n / 10) + [DigitChar(n % 10)]
  }

  /** The decimal form of an integer, as `String(n)` writes it. */
  function IntToString(i: int): string {
    if i < 0 then "-" + NatToString(-i) else NatToString(i)
  }

  /** Reads an optionally negative run of decimal digits back as an integer. */
  function ParseInt(s: string): Option<int> {
    if 2 <= |s| && s[0] == '-' && AllDigits(s[1..]) then Some(0 - DigitsValue(s[1..]))
    else if 1 <= |s| && AllDigits(s) then Some(DigitsValue(s))
    else None
  }

  lemma {:induction false} NatToStringValue(n: nat)
    ensures DigitsValue(NatToString(n)) == n
    decreases n
  {
    if n >= 10 {
      var s := NatToString(n);
      assert s[..|s| - 1] == NatToString(n / 10);
      NatToStringValue(n / 10);
    }
  }

  lemma {:induction false} NatToStringCanonical(n: nat)
    ensures Canonical(NatToString(n))
    decreases n
  {
    if n >= 10 {
      NatToStringCanonical(n / 10);
      var p := NatToString(n / 10);
      assert NatToString(n)[0] == p[0];
    }
  }

  lemma {:induction false} LeadingDigitPositive(s: string)
    requires Canonical(s) && s[0] != '0'
    ensures DigitsValue(s) >= 1
    ensures |s| >= 2 ==> DigitsValue(s) >= 10
    decreases |s|
  {
    if |s| >= 2 {
      var p := s[..|s| - 1];
      assert p[0] == s[0];
      LeadingDigitPositive(p);
    }
  }

  /** Canonical numerals and natural numbers are in one-to-one correspondence. */
  lemma {:induction false} CanonicalRoundTrip(s: string)
    requires Canonical(s)
    ensures NatToString(DigitsValue(s)) == s
    decreases |s|
  {
    if |s| == 1 {
      assert DigitChar(DigitValue(s[0])) == s[0];
    } else {
      var p := s[..|s| - 1];
      assert p[0] == s[0];
      LeadingDigitPositive(s);
      LeadingDigitPositive(p);
      CanonicalRoundTrip(p);
      assert DigitChar(DigitValue(s[|s| - 1])) == s[|s| - 1];
      assert s == p + [s[|s| - 1]];
    }
  }

  lemma IntToStringRoundTrip(i: int)
    ensures ParseInt(IntToString(i)) == Some(i)
  {
    NatToStringValue(if i < 0 then -i else i);
    if i < 0 {
      var s := IntToString(i);
      assert s[1..] == NatToString(-i);
    }
  }

  /** `String.prototype.padStart(width, [fill])`: prepends copies of `fill`
      until the string is `width` characters long; longer strings are kept. */
  function PadStart(s: string, width: nat, fill: char): (r: string)
    ensures |r| == if |s| < width then width else |s|
    ensures r[|r| - |s|..] == s
    ensures forall i :: 0 <= i < |r| - |s| ==> r[i] == fill
  {
    if |s| < width then seq(width - |s|, _ => fill) + s else s
  }

  /** The longest prefix of `s` whose characters all satisfy `P`, as a
      greedy regular-expression repetition such as `\d+` or `[^;]*` consumes it. */
  function Span(s: string, P: char -> bool): (r: string)
    ensures r <= s
    ensures forall i :: 0 <= i < |r| ==> P(r[i])
    ensures |r| == |s| || !P(s[|r|])
  {
    if |s| == 0 || !P(s[0]) then [] else [s[0]] + Span(s[1..], P)
  }

  /** The span stops exactly at the end of a prefix all of whose characters
      satisfy `P` when the next character does not. */
  lemma {:induction false} SpanOfPrefix(v: string, t: string, P: char -> bool)
    requires forall i :: 0 <= i < |v| ==> P(v[i])
    requires |t| == 0 || !P(t[0])
    ensures Span(v + t, P) == v
  {
    if |v| == 0 {
      assert v + t == t;
    } else {
      assert (v + t)[0] == v[0] && (v + t)[1..] == v[1..] + t;
      SpanOfPrefix(v[1..], t, P);
    }
  }

  /** The least index in `lo..hi` at which `P` holds, if there is one. */
  function FirstWhere(P: int -> bool, lo: int, hi: int): (r: Option<int>)
    ensures r.None? <==> forall k :: lo <= k < hi ==> !P(k)
    ensures r.Some? ==> lo <= r.value < hi && P(r.value)
    ensures r.Some? ==> forall k :: lo <= k < r.value ==> !P(k)
    decreases hi - lo
  {
    if hi <= lo then None
    else if P(lo) then Some(lo)
    else FirstWhere(P, lo + 1, hi)
  }

  /** A position found in a text that another one continues after `d`
      characters, as a position in the longer text; the start of the
      shorter text corresponds to `at`. */
  function Moved(p: Option<int>, d: int, at: int): Option<int> {
    match p
    case None => None
    case Some(q) => Some(if q == 0 then at else q + d)
  }

  /** When `P` holds nowhere before `d` except possibly at `at`, holds at
      `at` exactly when `Q` holds at 0, and past `d` agrees with `Q` moved
      along by `d`, the first place `P` holds is the first place `Q` holds,
      moved along. */
  lemma FirstWhereMoved(P: int -> bool, Q: int -> bool, n: int, m: int, d: int, at: int)
    requires 0 <= at < d && m >= 0 && n == d + m
    requires forall p :: 0 <= p <= d && p != at ==> !P(p)
    requires P(at) == Q(0)
    requires forall p :: d < p <= n ==> P(p) == Q(p - d)
    ensures FirstWhere(P, 0, n + 1) == Moved(FirstWhere(Q, 0, m + 1), d, at)
  {
    var found := FirstWhere(Q, 0, m + 1);
    var first := FirstWhere(P, 0, n + 1);
    if found.None? {
      forall p | 0 <= p < n + 1
        ensures !P(p)
      {
        if p > d {
          assert !Q(p - d);
        } else if p == at {
          assert !Q(0);
        }
      }
    } else {
      var q := found.value;
      var k := if q == 0 then at else q + d;
      assert P(k);
      forall p | d < p < k
        ensures !P(p)
      {
        assert !Q(p - d);
      }
      assert !(first.value < k);
    }
  }
}
