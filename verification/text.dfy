/**
 * The few Python string operations the analysis relies on, restated over `seq<char>`:
 * `str.strip()`, `str.rstrip('\n')`, clamped slicing `s[lo:hi]`, `str.startswith`,
 * `int(s)` on decimal literals, and `str(n)` for integers.
 */
module Text {
  import opened Results

  /** The characters Python's `str.isspace()` accepts, which `str.strip()` removes. */
  predicate IsSpace(c: char) {
    || c == ' '
    || '\t' <= c <= '\r'
    || '\U{1C}' <= c <= '\U{1F}'
    || c == '\U{85}' || c == '\U{A0}' || c == '\U{1680}'
    || '\U{2000}' <= c <= '\U{200A}'
    || c == '\U{2028}' || c == '\U{2029}' || c == '\U{202F}' || c == '\U{205F}' || c == '\U{3000}'
  }

  /** Every character of `s` is whitespace. */
  predicate AllSpace(s: string) {
    forall k :: 0 <= k < |s| ==> IsSpace(s[k])
  }

  /** How many whitespace characters `s` starts with. */
  function LeadingSpace(s: string): (n: nat)
    ensures n <= |s|
    ensures n < |s| ==> !IsSpace(s[n])
    ensures AllSpace(s[..n])
    decreases |s|
  {
    if |s| > 0 && IsSpace(s[0]) then
      var n := 1 + LeadingSpace(s[1..]);
      assert forall k :: 1 <= k < n ==> s[..n][k] == s[1..][..n - 1][k - 1];
      n
    else 0
  }

  /** How many whitespace characters `s` ends with. */
  function TrailingSpace(s: string): (n: nat)
    ensures n <= |s|
    ensures n < |s| ==> !IsSpace(s[|s| - n - 1])
    ensures AllSpace(s[|s| - n..])
    decreases |s|
  {
    if |s| > 0 && IsSpace(s[|s| - 1]) then
      var m := TrailingSpace(s[..|s| - 1]);
      SpaceSnoc(s, m);
      1 + m
    else 0
  }

  /** `s.lstrip()`. */
  function StripLeft(s: string): string {
    s[LeadingSpace(s)..]
  }

  /** `s.rstrip()`. */
  function StripRight(s: string): string {
    s[..|s| - TrailingSpace(s)]
  }

  /** Whether `r` is what is left of `s` once its whitespace ends are cut off: a piece of
      `s` starting at `a`, with whitespace only on either side, and with no whitespace at
      its own ends. */
  predicate IsStripOf(s: string, r: string, a: nat) {
    && a + |r| <= |s|
    && r == s[a..a + |r|]
    && AllSpace(s[..a]) && AllSpace(s[a + |r|..])
    && (|r| > 0 ==> !IsSpace(r[0]) && !IsSpace(r[|r| - 1]))
  }

  /** `s.strip()`: the input minus its leading and trailing whitespace, empty exactly when
      the input is all whitespace. */
  function Strip(s: string): (r: string)
    ensures |r| <= |s|
    ensures |r| > 0 ==> !IsSpace(r[0]) && !IsSpace(r[|r| - 1])
    ensures IsStripOf(s, r, LeadingSpace(s))
    ensures r == [] <==> AllSpace(s)
  {
    StripCutsSpace(s);
    StripRight(StripLeft(s))
  }

  /** Two runs of whitespace side by side are whitespace. */
  lemma AllSpaceConcat(x: string, y: string)
    requires AllSpace(x) && AllSpace(y)
    ensures AllSpace(x + y)
  {
    assert forall k :: |x| <= k < |x + y| ==> (x + y)[k] == y[k - |x|];
  }

  /** A whitespace character after a run of `m` trailing whitespace characters makes the
      run one longer. */
  lemma SpaceSnoc(s: string, m: nat)
    requires |s| > 0 && IsSpace(s[|s| - 1])
    requires var init := s[..|s| - 1];
      m <= |init| && AllSpace(init[|init| - m..]) && (m < |init| ==> !IsSpace(init[|init| - m - 1]))
    ensures AllSpace(s[|s| - (m + 1)..])
    ensures m + 1 < |s| ==> !IsSpace(s[|s| - (m + 1) - 1])
  {
    hide IsSpace;
    var init := s[..|s| - 1];
    assert s[|s| - (m + 1)..] == init[|init| - m..] + [s[|s| - 1]];
    assert m + 1 < |s| ==> s[|s| - (m + 1) - 1] == init[|init| - m - 1];
    AllSpaceConcat(init[|init| - m..], [s[|s| - 1]]);
  }

  /** `lstrip` then `rstrip` keeps the piece between the leading and the trailing spaces. */
  lemma StripLeftRight(s: string, a: nat, t: string, n: nat)
    requires a == LeadingSpace(s) && t == s[a..] && n == TrailingSpace(t)
    ensures StripRight(StripLeft(s)) == t[..|t| - n]
  {
  }

  /** A whitespace-only string has whitespace at every position. */
  lemma AllSpaceAt(s: string, k: nat)
    requires AllSpace(s) && k < |s|
    ensures IsSpace(s[k])
  {
  }

  /** Cutting a whitespace run off each end of `s`, where the runs end at characters that
      are not whitespace, leaves a strip of `s`; it is empty only when `s` is all whitespace. */
  lemma CutSpace(s: string, a: nat, t: string, n: nat, r: string)
    requires a <= |s| && t == s[a..] && n <= |t| && r == t[..|t| - n]
    requires AllSpace(s[..a]) && (a < |s| ==> !IsSpace(s[a]))
    requires AllSpace(t[|t| - n..]) && (n < |t| ==> !IsSpace(t[|t| - n - 1]))
    ensures IsStripOf(s, r, a)
    ensures r == [] <==> AllSpace(s)
  {
    hide IsSpace, AllSpace;
    assert r == s[a..a + |r|];
    assert s[a + |r|..] == t[|t| - n..];
    if r == [] {
      assert t[|t| - n..] == t;
      assert s == s[..a] + t;
      AllSpaceConcat(s[..a], t);
    } else {
      assert r[0] == s[a];
      assert r[|r| - 1] == t[|t| - n - 1];
      if AllSpace(s) {
        AllSpaceAt(s, a);
      }
    }
  }

  /** `lstrip` then `rstrip` cuts whitespace, and only whitespace, off both ends. */
  lemma StripCutsSpace(s: string)
    ensures IsStripOf(s, StripRight(StripLeft(s)), LeadingSpace(s))
    ensures StripRight(StripLeft(s)) == [] <==> AllSpace(s)
  {
    hide StripLeft, StripRight, LeadingSpace, TrailingSpace, IsSpace, AllSpace, IsStripOf;
    var a := LeadingSpace(s);
    var t := s[a..];
    var n := TrailingSpace(t);
    StripLeftRight(s, a, t, n);
    CutSpace(s, a, t, n, t[..|t| - n]);
  }

  /** How many line feeds `s` ends with. */
  function TrailingNewlines(s: string): (n: nat)
    ensures n <= |s|
    ensures n < |s| ==> s[|s| - n - 1] != '\n'
    ensures forall k :: |s| - n <= k < |s| ==> s[k] == '\n'
    decreases |s|
  {
    if |s| > 0 && s[|s| - 1] == '\n' then 1 + TrailingNewlines(s[..|s| - 1]) else 0
  }

  /** `s.rstrip('\n')`: drops every trailing line feed, and nothing else. */
  function StripNewlines(s: string): (r: string)
    ensures |r| <= |s| && r == s[..|r|]
    ensures |r| > 0 ==> r[|r| - 1] != '\n'
    ensures forall k :: |r| <= k < |s| ==> s[k] == '\n'
  {
    s[..|s| - TrailingNewlines(s)]
  }

  /** `s[lo:hi]` for non-negative bounds: both ends are clamped to the string, and an
      empty string comes back when the clamped range is empty. */
  function Slice(s: string, lo: nat, hi: nat): (r: string)
    ensures lo <= hi <= |s| ==> r == s[lo..hi]
    ensures lo <= |s| <= hi ==> r == s[lo..]
    ensures hi <= lo || |s| <= lo ==> r == []
  {
    var a := if lo < |s| then lo else |s|;
    var b := if hi < |s| then hi else |s|;
    if b <= a then [] else s[a..b]
  }

  /** `s.startswith(prefix)`. */
  function StartsWith(s: string, prefix: string): (b: bool)
    ensures b <==> exists rest :: s == prefix + rest
  {
    if |prefix| <= |s| && s[..|prefix|] == prefix then
      assert s == prefix + s[|prefix|..];
      true
    else false
  }

  predicate IsDigit(c: char) {
    '0' <= c <= '9'
  }

  predicate AllDigits(s: string) {
    forall k :: 0 <= k < |s| ==> IsDigit(s[k])
  }

  function DigitValue(c: char): nat
    requires IsDigit(c)
  {
    (c as int - '0' as int) as nat
  }

  function DigitChar(d: nat): (c: char)
    requires d < 10
    ensures IsDigit(c) && DigitValue(c) == d
  {
    ('0' as int + d) as char
  }

  /** The value of a string of decimal digits, most significant digit first. */
  function DigitsValue(s: string): nat
    requires AllDigits(s)
    decreases |s|
  {
    if |s| == 0 then 0 else 10 * DigitsValue(s[..|s| - 1]) + DigitValue(s[|s| - 1])
  }

  /** A decimal literal as `int()` reads it once surrounding whitespace is gone:
      an optional sign followed by at least one digit. */
  predicate IsIntLiteral(t: string) {
    if |t| > 0 && (t[0] == '-' || t[0] == '+') then |t| > 1 && AllDigits(t[1..])
    else |t| > 0 && AllDigits(t)
  }

  /** The ASCII information separators U+001C..U+001F. `str.isspace()` counts them as
      whitespace, but `int()` skips only the other whitespace characters, so one of them
      anywhere in its argument, at an end or inside the digits, makes `int()` fail. */
  predicate IsSeparator(c: char) {
    '\U{1C}' <= c <= '\U{1F}'
  }

  predicate HasSeparator(s: string) {
    exists k :: 0 <= k < |s| && IsSeparator(s[k])
  }

  /** An integer literal is made of a sign and digits only, so it holds no separator. */
  lemma LiteralHasNoSeparator(t: string)
    requires IsIntLiteral(t)
    ensures !HasSeparator(t)
  {
    if t[0] == '-' || t[0] == '+' {
      assert forall k :: 1 <= k < |t| ==> t[1..][k - 1] == t[k];
    }
  }

  /** `int(s)` in base 10; `None` where Python raises `ValueError`. */
  function ParseInt(s: string): (r: Option<int>)
    ensures r.Some? <==> IsIntLiteral(Strip(s)) && !HasSeparator(s)
  {
    var t := Strip(s);
    if HasSeparator(s) then None
    else if |t| > 0 && (t[0] == '-' || t[0] == '+') then
      if |t| > 1 && AllDigits(t[1..]) then
        var magnitude: int := DigitsValue(t[1..]);
        Some(if t[0] == '-' then -magnitude else magnitude)
      else None
    else if |t| > 0 && AllDigits(t) then Some(DigitsValue(t))
    else None
  }

  /** `str(n)` for a natural number: decimal digits without leading zeros. */
  function NatToString(n: nat): (r: string)
    ensures |r| > 0 && AllDigits(r)
    ensures DigitsValue(r) == n
    ensures r[0] == '0' ==> r == "0"
    decreases n
  {
    if n < 10 then [DigitChar(n)]
    else
      var p := NatToString(n / 10);
      var r := p + [DigitChar(n % 10)];
      assert r[..|r| - 1] == p;
      r
  }

  /** `str(i)` for an integer: a minus sign in front of negative values. */
  function IntToString(i: int): (r: string)
    ensures |r| > 0 && !IsSpace(r[0]) && !IsSpace(r[|r| - 1])
  {
    if i < 0 then "-" + NatToString(-i) else NatToString(i)
  }

  /** Ten to the power `k`. */
  function Pow10(k: nat): (p: nat)
    ensures p >= 1
  {
    if k == 0 then 1 else 10 * Pow10(k - 1)
  }

  /** A number below `10^k` takes at most `k` digits. */
  lemma {:induction false} NatToStringLength(n: nat, k: nat)
    requires 1 <= k && n < Pow10(k)
    ensures |NatToString(n)| <= k
    decreases k
  {
    if n >= 10 {
      NatToStringLength(n / 10, k - 1);
    }
  }

  /** `rstrip('\n')` drops exactly the one line feed ending a line. */
  lemma DropLineFeed(body: string)
    requires |body| == 0 || body[|body| - 1] != '\n'
    ensures StripNewlines(body + "\n") == body
  {
    var s := body + "\n";
    assert s[..|s| - 1] == body;
    assert TrailingNewlines(s) == 1 + TrailingNewlines(body);
  }

  /** There is only one way to cut the whitespace ends off a string, so anything that
      looks like a strip of `s` is `s.strip()`. */
  lemma StripUnique(s: string, r: string, a: nat)
    requires IsStripOf(s, r, a)
    ensures r == Strip(s)
  {
    var q := Strip(s);
    var b := LeadingSpace(s);
    hide Strip, LeadingSpace, IsSpace;
    assert IsStripOf(s, q, b);
    if |r| == 0 {
      assert s == s[..a] + s[a..];
      assert AllSpace(s);
    } else {
      assert s[a] == r[0];
      assert s[a + |r| - 1] == r[|r| - 1];
      assert !AllSpace(s);
      assert s[b] == q[0] && s[b + |q| - 1] == q[|q| - 1];
      assert a == b && |r| == |q|;
    }
  }

  /** `s.rstrip('\n').strip() == s.strip()`: a line feed is whitespace, so dropping line
      feeds first changes nothing. */
  lemma StripIgnoresNewlines(s: string)
    ensures Strip(StripNewlines(s)) == Strip(s)
  {
    var t := StripNewlines(s);
    var q := Strip(t);
    var a := LeadingSpace(t);
    hide Strip, LeadingSpace, StripNewlines;
    assert IsStripOf(t, q, a);
    assert s == t + s[|t|..];
    assert q == s[a..a + |q|];
    assert s[..a] == t[..a];
    assert AllSpace(s[a + |q|..]) by {
      assert s[a + |q|..] == t[a + |q|..] + s[|t|..];
    }
    StripUnique(s, q, a);
  }

  /** A string with no whitespace at either end is its own strip. */
  lemma StripTrimmed(s: string)
    requires |s| > 0 && !IsSpace(s[0]) && !IsSpace(s[|s| - 1])
    ensures Strip(s) == s
  {
  }

  /** Stripping removes left padding made of spaces. */
  lemma {:induction false} LeadingPadding(pad: string, core: string)
    requires forall k :: 0 <= k < |pad| ==> pad[k] == ' '
    requires |core| > 0 && !IsSpace(core[0])
    ensures LeadingSpace(pad + core) == |pad|
    decreases |pad|
  {
    if |pad| > 0 {
      assert (pad + core)[1..] == pad[1..] + core;
      LeadingPadding(pad[1..], core);
    } else {
      assert pad + core == core;
    }
  }

  /** Right-justified text strips back to itself. */
  lemma StripPadded(pad: string, core: string)
    requires forall k :: 0 <= k < |pad| ==> pad[k] == ' '
    requires |core| > 0 && !IsSpace(core[0]) && !IsSpace(core[|core| - 1])
    ensures Strip(pad + core) == core
  {
    LeadingPadding(pad, core);
    assert StripLeft(pad + core) == core;
  }

  /** `s` left-padded with zeros to width `w`, like `str(n).zfill(w)` for a natural number. */
  function PadZeros(s: string, w: nat): (r: string)
    ensures |r| == if |s| < w then w else |s|
    ensures r[|r| - |s|..] == s
    ensures forall k :: 0 <= k < |r| - |s| ==> r[k] == '0'
  {
    if |s| < w then seq(w - |s|, _ => '0') + s else s
  }

  /** Leading zeros do not change the value of a string of digits. */
  lemma {:induction false} LeadingZeros(z: string, s: string)
    requires forall k :: 0 <= k < |z| ==> z[k] == '0'
    requires AllDigits(s)
    ensures AllDigits(z + s)
    ensures DigitsValue(z + s) == DigitsValue(s)
    decreases |z| + |s|
  {
    if |s| == 0 {
      assert z + s == z;
      if |z| > 0 {
        LeadingZeros(z[..|z| - 1], s);
        assert (z + s)[..|z + s| - 1] == z[..|z| - 1] + s;
      }
    } else {
      var init := s[..|s| - 1];
      LeadingZeros(z, init);
      assert (z + s)[..|z + s| - 1] == z + init;
    }
  }

  /** `int()` of a plain string of digits is the number they spell. */
  lemma ParseDigits(t: string)
    requires |t| > 0 && AllDigits(t)
    ensures ParseInt(t) == Some(DigitsValue(t))
  {
    hide DigitsValue, LeadingSpace, TrailingSpace;
    assert IsDigit(t[0]) && IsDigit(t[|t| - 1]);
    StripTrimmed(t);
    LiteralHasNoSeparator(t);
  }

  /** `int(str(n).zfill(w)) == n`: a zero-padded decimal rendering reads back as its number. */
  lemma ParsePadded(n: nat, w: nat)
    ensures ParseInt(PadZeros(NatToString(n), w)) == Some(n)
  {
    var s := NatToString(n);
    var p := PadZeros(s, w);
    hide NatToString, DigitsValue, ParseInt;
    LeadingZeros(p[..|p| - |s|], s);
    assert p == p[..|p| - |s|] + s;
    ParseDigits(p);
  }

  /** `int(str(i)) == i`: the decimal rendering of an integer reads back as that integer. */
  lemma ParseIntRoundTrip(i: int)
    ensures ParseInt(IntToString(i)) == Some(i)
  {
    var t := IntToString(i);
    StripTrimmed(t);
    if i < 0 {
      assert t[1..] == NatToString(-i);
    }
    LiteralHasNoSeparator(t);
  }
}
