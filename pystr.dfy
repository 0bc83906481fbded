/** The two Python string built-ins the formatters rely on: `str.strip()`
    with no argument, and `str(n)` for a non-negative integer (as used by
    an f-string such as f"{line_num}"). */
module PyStr {

  /** The characters `str.strip()` removes by default: those Python's
      `str.isspace` accepts (bidirectional class WS, B or S, or general
      category Zs), listed by code point. */
  predicate IsSpace(c: char) {
    var k := c as int;
    (0x09 <= k <= 0x0D) || (0x1C <= k <= 0x20) || k == 0x85 || k == 0xA0 ||
    k == 0x1680 || (0x2000 <= k <= 0x200A) || k == 0x2028 || k == 0x2029 ||
    k == 0x202F || k == 0x205F || k == 0x3000
  }

  /** Number of whitespace characters at the front of `s`. */
  function LeadingSpaces(s: string): (k: nat)
    ensures k <= |s|
    ensures forall i :: 0 <= i < k ==> IsSpace(s[i])
    ensures k < |s| ==> !IsSpace(s[k])
  {
    if s == [] || !IsSpace(s[0]) then 0 else 1 + LeadingSpaces(s[1..])
  }

  /** Number of whitespace characters at the back of `s`. */
  function TrailingSpaces(s: string): (k: nat)
    ensures k <= |s|
    ensures forall i :: |s| - k <= i < |s| ==> IsSpace(s[i])
    ensures k < |s| ==> !IsSpace(s[|s| - 1 - k])
  {
    if s == [] || !IsSpace(s[|s| - 1]) then 0 else 1 + TrailingSpaces(s[..|s| - 1])
  }

  /** `lo..hi` is a stripping of `s`: everything outside it is whitespace,
      and a non-empty kept part starts and ends with a non-space. */
  predicate IsStripWindow(s: string, lo: int, hi: int) {
    0 <= lo <= hi <= |s| &&
    (forall i :: 0 <= i < lo ==> IsSpace(s[i])) &&
    (forall i :: hi <= i < |s| ==> IsSpace(s[i])) &&
    (lo < hi ==> !IsSpace(s[lo]) && !IsSpace(s[hi - 1]))
  }

  /** Python's `s.strip()`: the window left after the leading whitespace
      and the trailing whitespace are cut off. */
  function Strip(s: string): (r: string)
    ensures IsStripWindow(s, LeadingSpaces(s), LeadingSpaces(s) + |r|)
    ensures r == s[LeadingSpaces(s)..LeadingSpaces(s) + |r|]
  {
    var lo := LeadingSpaces(s);
    if lo == |s| then [] else s[lo..|s| - TrailingSpaces(s)]
  }

  /** The kept part is unique: any window that satisfies the definition of a
      stripping selects exactly what `Strip` returns. */
  lemma StripUnique(s: string, lo: int, hi: int)
    requires IsStripWindow(s, lo, hi)
    ensures Strip(s) == s[lo..hi]
  {
    var lo', hi' := LeadingSpaces(s), LeadingSpaces(s) + |Strip(s)|;
    if lo < hi {
      assert !IsSpace(s[lo]) && !IsSpace(s[hi - 1]);
      assert lo' == lo;
      assert hi' == hi;
    } else if lo' < hi' {
      assert false;
    }
  }

  /** The result of `Strip` has no whitespace at either end. */
  lemma StripTrimmed(s: string)
    ensures Strip(s) == [] || (!IsSpace(Strip(s)[0]) && !IsSpace(Strip(s)[|Strip(s)| - 1]))
  {
  }

  /** Stripping twice is stripping once. */
  lemma {:induction false} StripIdempotent(s: string)
    ensures Strip(Strip(s)) == Strip(s)
  {
    var t := Strip(s);
    StripTrimmed(s);
    assert IsStripWindow(t, 0, |t|);
    StripUnique(t, 0, |t|);
    assert t[0..|t|] == t;
  }

  /** Whitespace added around an already stripped string is removed again:
      `(p + t + q).strip() == t` when `p` and `q` are whitespace. */
  lemma {:induction false} StripPadded(p: string, t: string, q: string)
    requires forall i :: 0 <= i < |p| ==> IsSpace(p[i])
    requires forall i :: 0 <= i < |q| ==> IsSpace(q[i])
    requires t == [] || (!IsSpace(t[0]) && !IsSpace(t[|t| - 1]))
    ensures Strip(p + t + q) == t
  {
    var s := p + t + q;
    if t == [] {
      assert IsStripWindow(s, |p|, |p|);
      StripUnique(s, |p|, |p|);
    } else {
      assert IsStripWindow(s, |p|, |p| + |t|);
      StripUnique(s, |p|, |p| + |t|);
      assert s[|p|..|p| + |t|] == t;
    }
  }

  predicate IsDigit(c: char) {
    '0' <= c <= '9'
  }

  function DigitChar(d: nat): (c: char)
    requires d < 10
    ensures IsDigit(c) && DigitValue(c) == d
  {
    ('0' as int + d) as char
  }

  function DigitValue(c: char): nat
    requires IsDigit(c)
  {
    c as int - '0' as int
  }

  /** Python's `str(n)` for `n >= 0`: the decimal digits of `n`, most
      significant first. */
  function DecimalString(n: nat): (r: string)
    ensures |r| >= 1
    ensures forall i :: 0 <= i < |r| ==> IsDigit(r[i])
    ensures r[0] == '0' ==> n == 0 && |r| == 1
  {
    if n < 10 then [DigitChar(n)] else DecimalString(n / 10) + [DigitChar(n % 10)]
  }

  /** Reading a string of decimal digits back as a number (the inverse of
      `DecimalString`). */
  function ParseDecimal(s: string): nat
    requires forall i :: 0 <= i < |s| ==> IsDigit(s[i])
  {
    if s == [] then 0
    else ParseDecimal(s[..|s| - 1]) * 10 + DigitValue(s[|s| - 1])
  }

  lemma {:induction false} DecimalRoundTrip(n: nat)
    ensures ParseDecimal(DecimalString(n)) == n
  {
    var r := DecimalString(n);
    if n >= 10 {
      DecimalRoundTrip(n / 10);
      assert r[..|r| - 1] == DecimalString(n / 10);
    } else {
      assert r[..0] == [];
    }
  }
}
