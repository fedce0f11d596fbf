/** The string primitives the reader relies on: `trim`, the digit and white
    space tests, scanning for a stop character, and decimal digit values.
    White space is the fixed ASCII set and digits are '0'..'9'. */
module Text {

  /** The white space that `trim` strips (ASCII space, tab, line feed,
      vertical tab, form feed and carriage return). */
  predicate IsWhitespace(c: char) {
    c == ' ' || c == '\t' || c == '\n' || c == '\U{0B}' || c == '\U{0C}' || c == '\r'
  }

  predicate IsDigit(c: char) {
    '0' <= c <= '9'
  }

  predicate AllDigits(d: string) {
    forall k :: 0 <= k < |d| ==> IsDigit(d[k])
  }

  /** `a` is what is left of `b` after dropping some leading characters. */
  predicate IsSuffix(a: string, b: string) {
    |a| <= |b| && a == b[|b| - |a|..]
  }

  /** Strips leading white space. */
  function TrimLeft(s: string): (r: string)
    ensures IsSuffix(r, s)
    ensures r == [] || !IsWhitespace(r[0])
    ensures forall k :: 0 <= k < |s| - |r| ==> IsWhitespace(s[k])
    decreases |s|
  {
    if s != [] && IsWhitespace(s[0]) then TrimLeft(s[1..]) else s
  }

  /** Strips trailing white space. */
  function TrimRight(s: string): (r: string)
    ensures |r| <= |s| && r == s[..|r|]
    ensures r == [] || !IsWhitespace(r[|r| - 1])
    ensures forall k :: |r| <= k < |s| ==> IsWhitespace(s[k])
    decreases |s|
  {
    if s != [] && IsWhitespace(s[|s| - 1]) then TrimRight(s[..|s| - 1]) else s
  }

  /** `str::trim`: strips white space at both ends. The result is no longer
      than `s` and starts and ends with a non-space character. */
  function Trim(s: string): (r: string)
    ensures |r| <= |s|
    ensures r == [] || (!IsWhitespace(r[0]) && !IsWhitespace(r[|r| - 1]))
  {
    var l := TrimLeft(s);
    var r := TrimRight(l);
    assert r == [] || r[0] == l[0];
    r
  }

  /** The trim of `s` is the slice of `s` that starts after its leading white
      space, and everything cut off at either end is white space. */
  lemma TrimIsSlice(s: string)
    ensures var i := |s| - |TrimLeft(s)|;
      && i + |Trim(s)| <= |s| && Trim(s) == s[i..i + |Trim(s)|]
      && (forall k :: 0 <= k < i ==> IsWhitespace(s[k]))
      && (forall k :: i + |Trim(s)| <= k < |s| ==> IsWhitespace(s[k]))
  {
    var l, i := TrimLeft(s), |s| - |TrimLeft(s)|;
    var r := TrimRight(l);
    assert r == l[..|r|] && l == s[i..];
    assert s[i..][..|r|] == s[i..i + |r|];
    TrimTailIsBlank(s, l, i);
  }

  lemma TrimTailIsBlank(s: string, l: string, i: nat)
    requires l == TrimLeft(s) && i == |s| - |l|
    ensures forall k :: i + |TrimRight(l)| <= k < |s| ==> IsWhitespace(s[k])
  {
    var r := TrimRight(l);
    forall k | i + |r| <= k < |s| ensures IsWhitespace(s[k]) {
      assert s[k] == l[k - i];
    }
  }

  /** Trimming leaves nothing exactly when `s` is all white space. */
  lemma TrimEmptyIffBlank(s: string)
    ensures Trim(s) == [] <==> forall k :: 0 <= k < |s| ==> IsWhitespace(s[k])
  {
    var l := TrimLeft(s);
    if l != [] {
      assert TrimRight(l) != [] by {
        assert !IsWhitespace(l[0]);
      }
    }
  }

  /** The number of leading characters of `s` before the first `c`, or `|s|`
      when `s` has no `c`. */
  function RunBefore(s: string, c: char): (n: nat)
    ensures n <= |s|
    ensures c !in s[..n]
    ensures n < |s| ==> s[n] == c
    decreases |s|
  {
    if s == [] || s[0] == c then 0
    else
      var n := 1 + RunBefore(s[1..], c);
      assert s[..n] == [s[0]] + s[1..][..n - 1];
      n
  }

  /** The length of the leading run of digits of `s`. */
  function DigitRun(s: string): (n: nat)
    ensures n <= |s|
    ensures AllDigits(s[..n])
    ensures n < |s| ==> !IsDigit(s[n])
    decreases |s|
  {
    if s == [] || !IsDigit(s[0]) then 0
    else
      var n := 1 + DigitRun(s[1..]);
      assert forall k :: 1 <= k < n ==> s[k] == s[1..][k - 1];
      n
  }

  /** `char::to_digit(10)` on an ASCII decimal digit. */
  function DigitValue(c: char): (v: nat)
    requires IsDigit(c)
    ensures v < 10
  {
    (c - '0') as nat
  }

  /** The character of a value below ten. */
  function DigitChar(v: nat): (c: char)
    requires v < 10
    ensures IsDigit(c) && DigitValue(c) == v
  {
    ('0' as int + v) as char
  }

  /** Reading a digit's value and spelling it again gives the digit back. */
  lemma DigitRoundTrip(c: char)
    requires IsDigit(c)
    ensures DigitChar(DigitValue(c)) == c
  {
  }

  function Pow10(n: nat): (p: nat)
    ensures p >= 1
  {
    if n == 0 then 1 else 10 * Pow10(n - 1)
  }

  /** The value of a string of decimal digits, read from the left: each digit
      multiplies what came before by ten. It is below ten to the number of
      digits. */
  function DecimalValue(d: string): (v: nat)
    requires AllDigits(d)
    ensures v < Pow10(|d|)
    decreases |d|
  {
    if d == [] then 0
    else 10 * DecimalValue(d[..|d| - 1]) + DigitValue(d[|d| - 1])
  }

  /** The shortest decimal spelling of `n`: the inverse of `DecimalValue`. */
  function ShowNat(n: nat): (d: string)
    ensures d != [] && AllDigits(d)
    ensures DecimalValue(d) == n
    ensures d[0] == '0' ==> d == "0"
  {
    if n < 10 then [DigitChar(n)]
    else
      var d := ShowNat(n / 10) + [DigitChar(n % 10)];
      assert d[..|d| - 1] == ShowNat(n / 10);
      d
  }

  lemma SuffixTransitive(a: string, b: string, c: string)
    requires IsSuffix(a, b) && IsSuffix(b, c)
    ensures IsSuffix(a, c)
  {
    assert c[|c| - |b|..][|b| - |a|..] == c[|c| - |a|..];
  }

  /** A character of the trim of `s` is a character of `s`. */
  lemma TrimKeepsCharacter(c: char, s: string)
    requires c in Trim(s)
    ensures c in s
  {
    var t, i := Trim(s), |s| - |TrimLeft(s)|;
    TrimIsSlice(s);
    var k :| 0 <= k < |t| && t[k] == c;
    assert s[i + k] == c;
  }

  /** Stripping leading white space keeps a last character that is not
      white space. */
  lemma {:induction false} TrimLeftKeepsLast(s: string)
    requires s != [] && !IsWhitespace(s[|s| - 1])
    ensures TrimLeft(s) != [] && TrimLeft(s)[|TrimLeft(s)| - 1] == s[|s| - 1]
    decreases |s|
  {
    if IsWhitespace(s[0]) {
      assert s[1..] != [] && s[1..][|s| - 2] == s[|s| - 1];
      TrimLeftKeepsLast(s[1..]);
    }
  }

  /** A leading white space character is trimmed away. */
  lemma TrimDropsLeadingSpace(s: string)
    requires s != [] && IsWhitespace(s[0])
    ensures Trim(s) == Trim(s[1..])
  {
  }

  /** A character of a suffix is a character of the whole. */
  lemma InSuffix(c: char, a: string, b: string)
    requires IsSuffix(a, b) && c in a
    ensures c in b
  {
    var k :| 0 <= k < |a| && a[k] == c;
    assert b[|b| - |a| + k] == c;
  }

  /** Trimming a string that ends in a non-space only strips its front, and
      keeps that last character. */
  lemma TrimIsSuffix(s: string)
    requires s != [] && !IsWhitespace(s[|s| - 1])
    ensures IsSuffix(Trim(s), s)
    ensures Trim(s) != [] && Trim(s)[|Trim(s)| - 1] == s[|s| - 1]
  {
    TrimLeftKeepsLast(s);
    var l := TrimLeft(s);
    assert TrimRight(l) == l;
  }

  /** The digit run of a run of digits followed by a non-digit is that run. */
  lemma {:induction false} DigitRunOfSplit(digits: string, rest: string)
    requires AllDigits(digits)
    requires rest == [] || !IsDigit(rest[0])
    ensures DigitRun(digits + rest) == |digits|
    decreases |digits|
  {
    if digits != [] {
      assert (digits + rest)[1..] == digits[1..] + rest;
      DigitRunOfSplit(digits[1..], rest);
    }
  }

  /** Scanning for `c` stops right after a `c`-free prefix that `c` follows. */
  lemma {:induction false} RunBeforeOfSplit(prefix: string, c: char, rest: string)
    requires c !in prefix
    requires rest == [] || rest[0] == c
    ensures RunBefore(prefix + rest, c) == |prefix|
    decreases |prefix|
  {
    if prefix != [] {
      assert (prefix + rest)[1..] == prefix[1..] + rest;
      assert prefix[0] in prefix;
      RunBeforeOfSplit(prefix[1..], c, rest);
    }
  }
}
