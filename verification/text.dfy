/** String helpers with the meaning Python gives them: `str.isspace`,
    `str.strip()` with no argument, and `str(n)` for a natural number. */
module Text {

  /** The characters for which Python's `str.isspace()` holds. `str.strip()`
      with no argument removes exactly these from both ends of a string. */
  predicate IsSpace(c: char) {
    var n := c as int;
    || 0x09 <= n <= 0x0D
    || 0x1C <= n <= 0x20
    || n == 0x85 || n == 0xA0 || n == 0x1680
    || 0x2000 <= n <= 0x200A
    || n == 0x2028 || n == 0x2029 || n == 0x202F || n == 0x205F || n == 0x3000
  }

  predicate AllSpace(s: string) {
    forall i :: 0 <= i < |s| ==> IsSpace(s[i])
  }

  /** `r` sits at offset `i` of `s` with nothing but whitespace around it. */
  predicate Framed(s: string, i: int, r: string) {
    && 0 <= i
    && i + |r| <= |s|
    && s[i..i + |r|] == r
    && AllSpace(s[..i])
    && AllSpace(s[i + |r|..])
  }

  /** No whitespace at either end: what `strip()` leaves behind. */
  predicate Trimmed(r: string) {
    r == [] || (!IsSpace(r[0]) && !IsSpace(r[|r| - 1]))
  }

  /** Number of leading whitespace characters of `s`. */
  function LeadingSpace(s: string): (k: nat)
    ensures k <= |s|
    ensures AllSpace(s[..k])
    ensures k == |s| || !IsSpace(s[k])
  {
    if s == [] || !IsSpace(s[0]) then 0
    else
      var k' := LeadingSpace(s[1..]);
      assert forall i :: 1 <= i < 1 + k' ==> s[i] == s[1..][..k'][i - 1];
      1 + k'
  }

  /** Length of `s` once its trailing whitespace is cut off. */
  function TrailingStart(s: string): (k: nat)
    ensures k <= |s|
    ensures AllSpace(s[k..])
    ensures k == 0 || !IsSpace(s[k - 1])
  {
    if s == [] || !IsSpace(s[|s| - 1]) then |s|
    else
      var k := TrailingStart(s[..|s| - 1]);
      assert forall i :: k <= i < |s| - 1 ==> s[i] == s[..|s| - 1][k..][i - k];
      k
  }

  /** Python's `s.strip()`: the part of `s` between its leading and its
      trailing whitespace. */
  function Strip(s: string): (r: string)
    ensures Trimmed(r)
    ensures r == [] <==> AllSpace(s)
  {
    var i := LeadingSpace(s);
    var j := TrailingStart(s[i..]);
    StripCut(s, i, j);
    s[i..][..j]
  }

  /** Cutting `s` after its leading whitespace (`i` characters) and before
      a non-space character ending at `j` leaves a trimmed string, empty
      exactly when `s` is all whitespace. */
  lemma StripCut(s: string, i: nat, j: nat)
    requires i <= |s| && AllSpace(s[..i]) && (i == |s| || !IsSpace(s[i]))
    requires j <= |s| - i && AllSpace(s[i..][j..]) && (j == 0 || !IsSpace(s[i..][j - 1]))
    ensures Trimmed(s[i..][..j])
    ensures s[i..][..j] == [] <==> AllSpace(s)
  {
    var r := s[i..][..j];
    if i == |s| {
      assert s[..i] == s;
    } else {
      assert s[i..][0] == s[i];
      assert r[0] == s[i];
    }
  }

  /** `strip()` cuts only whitespace, and only from the two ends. */
  lemma StripFramed(s: string)
    ensures exists i :: Framed(s, i, Strip(s))
  {
    var i := LeadingSpace(s);
    var rest := s[i..];
    var j := TrailingStart(rest);
    assert s[i..i + j] == rest[..j];
    assert forall k :: i + j <= k < |s| ==> s[k] == rest[j..][k - i - j];
    assert Framed(s, i, Strip(s));
  }

  /** Every character of `strip()`'s result is a character of its input. */
  lemma StripIsInfix(s: string, c: char)
    requires c in Strip(s)
    ensures c in s
  {
    var r := Strip(s);
    StripFramed(s);
    var i :| Framed(s, i, r);
    var k :| 0 <= k < |r| && r[k] == c;
    assert s[i + k] == s[i..i + |r|][k];
  }

  lemma {:induction false} LeadingSpaceBefore(a: string, t: string)
    requires AllSpace(a) && t != [] && !IsSpace(t[0])
    ensures LeadingSpace(a + t) == |a|
    decreases |a|
  {
    if a != [] {
      assert (a + t)[1..] == a[1..] + t;
      LeadingSpaceBefore(a[1..], t);
    }
  }

  lemma {:induction false} TrailingStartAfter(t: string, b: string)
    requires AllSpace(b) && t != [] && !IsSpace(t[|t| - 1])
    ensures TrailingStart(t + b) == |t|
    decreases |b|
  {
    if b != [] {
      assert (t + b)[..|t + b| - 1] == t + b[..|b| - 1];
      TrailingStartAfter(t, b[..|b| - 1]);
    }
  }

  /** `strip()` is determined by its specification: whatever whitespace
      surrounds a trimmed string, stripping gives back that string. */
  lemma StripPadded(a: string, m: string, b: string)
    requires AllSpace(a) && AllSpace(b) && Trimmed(m)
    ensures Strip(a + m + b) == m
  {
    var s := a + m + b;
    if m == [] {
      assert forall k :: 0 <= k < |s| ==> IsSpace(s[k]) by {
        forall k | 0 <= k < |s| ensures IsSpace(s[k]) {
          if k < |a| { assert s[k] == a[k]; } else { assert s[k] == b[k - |a|]; }
        }
      }
    } else {
      assert s == a + (m + b);
      LeadingSpaceBefore(a, m + b);
      assert s[|a|..] == m + b;
      TrailingStartAfter(m, b);
      assert (m + b)[..|m|] == m;
    }
  }

  /** A trimmed string is its own `strip()`. */
  lemma StripOfTrimmed(s: string)
    requires Trimmed(s)
    ensures Strip(s) == s
  {
    StripPadded([], s, []);
    assert [] + s + [] == s;
  }

  /** Stripping twice is stripping once. */
  lemma StripIdempotent(s: string)
    ensures Strip(Strip(s)) == Strip(s)
  {
    var r := Strip(s);
    StripPadded([], r, []);
    assert [] + r + [] == r;
  }

  /** Index of the first `c` in `s`, or `|s|` when there is none. */
  function Find(s: string, c: char): (i: nat)
    ensures i <= |s|
    ensures c !in s[..i]
    ensures i < |s| ==> s[i] == c
  {
    if s == [] then 0
    else if s[0] == c then 0
    else
      var i := Find(s[1..], c);
      assert s[..i + 1] == [s[0]] + s[1..][..i];
      1 + i
  }

  /** The first `c` after a `c`-free prefix is the one right after it. */
  lemma {:induction false} FindAfter(a: string, c: char, x: string)
    requires c !in a
    ensures Find(a + [c] + x, c) == |a|
    decreases |a|
  {
    if a != [] {
      assert (a + [c] + x)[1..] == a[1..] + [c] + x;
      assert a == [a[0]] + a[1..];
      FindAfter(a[1..], c, x);
    }
  }

  predicate IsDigit(c: char) {
    '0' <= c <= '9'
  }

  predicate AllDigits(s: string) {
    forall i :: 0 <= i < |s| ==> IsDigit(s[i])
  }

  function Digit(d: nat): (c: char)
    requires d < 10
  {
    (0x30 + d) as char
  }

  /** Python's `str(n)` for a natural number: its decimal digits, most
      significant first, without leading zeros. */
  function NatToString(n: nat): (s: string)
    ensures |s| >= 1
    ensures AllDigits(s)
    ensures s[0] == '0' ==> n == 0
    decreases n
  {
    if n < 10 then [Digit(n)] else NatToString(n / 10) + [Digit(n % 10)]
  }

  /** The number a string of decimal digits denotes. */
  function DigitsValue(s: string): nat
    requires AllDigits(s)
  {
    if s == [] then 0 else 10 * DigitsValue(s[..|s| - 1]) + (s[|s| - 1] as int - 0x30)
  }

  /** Reading back the digits of `n` gives `n`. */
  lemma {:induction false} NatToStringRoundTrip(n: nat)
    ensures DigitsValue(NatToString(n)) == n
    decreases n
  {
    if n >= 10 {
      var s := NatToString(n);
      NatToStringRoundTrip(n / 10);
      assert s[..|s| - 1] == NatToString(n / 10);
    }
  }

  /** Different numbers print differently. */
  lemma NatToStringInjective(m: nat, n: nat)
    ensures NatToString(m) == NatToString(n) ==> m == n
  {
    NatToStringRoundTrip(m);
    NatToStringRoundTrip(n);
  }
}
