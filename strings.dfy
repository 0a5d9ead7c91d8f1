/** The string operations of Rust's `str` that the program relies on, written out on
    `seq<char>`: `trim`, `split_whitespace`, `starts_with`, `ends_with`,
    `trim_start_matches` and `parse::<usize>`. */
module Strings {
  import opened Wrappers

  /** The Unicode White_Space property, which is what `char::is_whitespace` (and so
      `str::trim` and `str::split_whitespace`) tests: U+0009..U+000D, U+0020, U+0085,
      U+00A0, U+1680, U+2000..U+200A, U+2028, U+2029, U+202F, U+205F and U+3000. */
  predicate IsWhitespace(c: char)
  {
    || ('\t' <= c <= '\r')
    || c == ' '
    || c == '\U{85}'
    || c == '\U{A0}'
    || c == '\U{1680}'
    || ('\U{2000}' <= c <= '\U{200A}')
    || c == '\U{2028}'
    || c == '\U{2029}'
    || c == '\U{202F}'
    || c == '\U{205F}'
    || c == '\U{3000}'
  }

  predicate AllWhitespace(s: string)
  {
    forall i :: 0 <= i < |s| ==> IsWhitespace(s[i])
  }

  /** A field of `split_whitespace`: non-empty and free of whitespace. */
  predicate IsWord(s: string)
  {
    |s| > 0 && forall i :: 0 <= i < |s| ==> !IsWhitespace(s[i])
  }

  /** `s.starts_with(c)` for a single character. */
  predicate StartsWithChar(s: string, c: char)
  {
    |s| > 0 && s[0] == c
  }

  /** `s.ends_with(suffix)`. */
  predicate EndsWith(s: string, suffix: string)
  {
    |suffix| <= |s| && s[|s| - |suffix|..] == suffix
  }

  /** Number of whitespace characters at the front of `s`. */
  function LeadingWhitespace(s: string): (k: nat)
    ensures k <= |s|
    ensures AllWhitespace(s[..k])
    ensures k < |s| ==> !IsWhitespace(s[k])
    decreases |s|
  {
    if |s| > 0 && IsWhitespace(s[0]) then 1 + LeadingWhitespace(s[1..]) else 0
  }

  /** Index where the whitespace at the back of `s` begins. */
  function TrailingWhitespaceStart(s: string): (k: nat)
    ensures k <= |s|
    ensures AllWhitespace(s[k..])
    ensures k > 0 ==> !IsWhitespace(s[k - 1])
    decreases |s|
  {
    if |s| > 0 && IsWhitespace(s[|s| - 1]) then
      var t := s[..|s| - 1];
      var k := TrailingWhitespaceStart(t);
      assert AllWhitespace(s[k..]) by {
        forall i | 0 <= i < |s| - k ensures IsWhitespace(s[k..][i]) {
          if i < |t| - k {
            assert s[k..][i] == t[k..][i];
          }
        }
      }
      k
    else |s|
  }

  /** `str::trim`: `s` with leading and trailing whitespace removed. */
  function Trim(s: string): (r: string)
    ensures |r| <= |s|
    ensures |r| == 0 <==> AllWhitespace(s)
    ensures |r| > 0 ==> !IsWhitespace(r[0]) && !IsWhitespace(r[|r| - 1])
  {
    var e := TrailingWhitespaceStart(s);
    var t := s[..e];
    var b := LeadingWhitespace(t);
    assert b == e ==> AllWhitespace(s) by {
      if b == e {
        forall i | 0 <= i < |s| ensures IsWhitespace(s[i]) {
          if i < e {
            assert t[..b][i] == s[i];
          } else {
            assert s[e..][i - e] == s[i];
          }
        }
      }
    }
    assert b < e ==> t[b] == s[b];
    t[b..]
  }

  /** What `Trim` keeps is a slice of `s`, and what it removes on either side is whitespace. */
  lemma TrimRemovesOnlyEndWhitespace(s: string)
    ensures exists b, e :: 0 <= b <= e <= |s| && Trim(s) == s[b..e] && AllWhitespace(s[..b]) && AllWhitespace(s[e..])
  {
    var e := TrailingWhitespaceStart(s);
    var t := s[..e];
    var b := LeadingWhitespace(t);
    assert t[b..] == s[b..e];
    assert s[..b] == t[..b];
  }

  /** Length of the run of non-whitespace characters at the front of `s`. */
  function WordLength(s: string): (n: nat)
    ensures n <= |s|
    ensures forall i :: 0 <= i < n ==> !IsWhitespace(s[i])
    ensures n < |s| ==> IsWhitespace(s[n])
    decreases |s|
  {
    if |s| > 0 && !IsWhitespace(s[0]) then 1 + WordLength(s[1..]) else 0
  }

  /** `str::split_whitespace`: the maximal runs of non-whitespace characters, in order. */
  function SplitWhitespace(s: string): (r: seq<string>)
    ensures forall k :: 0 <= k < |r| ==> IsWord(r[k])
    decreases |s|
  {
    var i := LeadingWhitespace(s);
    if i == |s| then
      assert s[..i] == s;
      []
    else
      var n := WordLength(s[i..]);
      assert n > 0;
      var word := s[i..i + n];
      assert IsWord(word) by {
        forall k | 0 <= k < n ensures !IsWhitespace(word[k]) {
          assert word[k] == s[i..][k];
        }
      }
      [word] + SplitWhitespace(s[i + n..])
  }

  /** `s.trim_start_matches(c)`: every leading copy of `c` removed. */
  function TrimStartMatches(s: string, c: char): (r: string)
    ensures |r| <= |s|
    ensures !StartsWithChar(r, c)
    decreases |s|
  {
    if StartsWithChar(s, c) then TrimStartMatches(s[1..], c) else s
  }

  /** What `TrimStartMatches` removes is a run of `c`, and what it keeps is the rest of
      `s` unchanged. */
  lemma {:induction false} TrimStartMatchesRemovesOnlyPrefix(s: string, c: char)
    ensures var r := TrimStartMatches(s, c);
            r == s[|s| - |r|..] && forall i :: 0 <= i < |s| - |r| ==> s[i] == c
    decreases |s|
  {
    if StartsWithChar(s, c) {
      TrimStartMatchesRemovesOnlyPrefix(s[1..], c);
      var r := TrimStartMatches(s, c);
      assert s[1..][|s| - 1 - |r|..] == s[|s| - |r|..];
      forall i | 1 <= i < |s| - |r| ensures s[i] == c {
        assert s[1..][i - 1] == s[i];
      }
    }
  }

  // ---------------------------------------------------------------------------
  // `str::parse::<usize>`
  // ---------------------------------------------------------------------------

  /** The largest `usize` on a 64-bit target. */
  const UsizeMax: nat := 0xFFFF_FFFF_FFFF_FFFF

  predicate IsDigit(c: char)
  {
    '0' <= c <= '9'
  }

  predicate AllDigits(s: string)
  {
    forall i :: 0 <= i < |s| ==> IsDigit(s[i])
  }

  function DigitValue(c: char): (d: nat)
    requires IsDigit(c)
    ensures d < 10
  {
    c as int - '0' as int
  }

  function DigitChar(d: nat): (c: char)
    requires d < 10
    ensures IsDigit(c) && DigitValue(c) == d
  {
    ('0' as int + d) as char
  }

  /** Value of a string of decimal digits, most significant first. */
  function DecimalValue(s: string): nat
    requires AllDigits(s)
    decreases |s|
  {
    if |s| == 0 then 0 else DecimalValue(s[..|s| - 1]) * 10 + DigitValue(s[|s| - 1])
  }

  /** Decimal rendering of `n` without leading zeros: the reference the parser is
      checked against. */
  function Decimal(n: nat): (s: string)
    ensures |s| > 0 && AllDigits(s)
  {
    if n < 10 then [DigitChar(n)] else Decimal(n / 10) + [DigitChar(n % 10)]
  }

  /** `<usize as FromStr>::from_str`: an optional `+` (not on its own), then one or more
      ASCII digits whose value fits in a `usize`; anything else is an error. */
  function ParseUsize(s: string): (r: Option<nat>)
    ensures r.Some? ==> r.value <= UsizeMax
  {
    var digits := if StartsWithChar(s, '+') then s[1..] else s;
    if |digits| == 0 || !AllDigits(digits) then None
    else if DecimalValue(digits) > UsizeMax then None
    else Some(DecimalValue(digits))
  }

  lemma {:induction false} DecimalValueOfDecimal(n: nat)
    ensures DecimalValue(Decimal(n)) == n
  {
    if n >= 10 {
      var s := Decimal(n);
      assert s[..|s| - 1] == Decimal(n / 10);
      DecimalValueOfDecimal(n / 10);
    }
  }

  /** Every `usize` written in decimal, with or without a `+`, parses back to itself. */
  lemma ParseUsizeRoundTrip(n: nat)
    requires n <= UsizeMax
    ensures ParseUsize(Decimal(n)) == Some(n)
    ensures ParseUsize("+" + Decimal(n)) == Some(n)
  {
    DecimalValueOfDecimal(n);
    assert ("+" + Decimal(n))[1..] == Decimal(n);
  }

  /** A decimal number past `usize::MAX` is an overflow error. */
  lemma ParseUsizeRejectsOverflow(n: nat)
    requires n > UsizeMax
    ensures ParseUsize(Decimal(n)) == None
    ensures ParseUsize("+" + Decimal(n)) == None
  {
    DecimalValueOfDecimal(n);
    assert ("+" + Decimal(n))[1..] == Decimal(n);
  }

  /** The empty string, a lone sign and any string holding a `-` are rejected. */
  lemma ParseUsizeRejects(s: string)
    ensures ParseUsize("") == None && ParseUsize("+") == None
    ensures (exists i :: 0 <= i < |s| && s[i] == '-') ==> ParseUsize(s) == None
  {
    if exists i :: 0 <= i < |s| && s[i] == '-' {
      var i :| 0 <= i < |s| && s[i] == '-';
      if StartsWithChar(s, '+') {
        assert s[1..][i - 1] == '-';
      }
    }
  }

  /** Any character other than a digit rejects the field, except one `+` in front. */
  lemma ParseUsizeRejectsNonDigit(s: string, i: nat)
    requires i < |s| && !IsDigit(s[i]) && !(i == 0 && s[i] == '+')
    ensures ParseUsize(s) == None
  {
    if StartsWithChar(s, '+') {
      assert s[1..][i - 1] == s[i];
    }
  }

  /** Whatever parses is an optional `+` followed by one or more digits, and the value
      is the decimal value of those digits. */
  lemma ParseUsizeSound(s: string)
    requires ParseUsize(s).Some?
    ensures exists d :: (s == d || s == "+" + d) && |d| > 0 && AllDigits(d) && DecimalValue(d) == ParseUsize(s).value
  {
    var d := if StartsWithChar(s, '+') then s[1..] else s;
    assert StartsWithChar(s, '+') ==> s == "+" + d;
  }

  /** Every non-empty digit string parses, with or without a `+` in front, to its
      decimal value when that fits in a `usize`, and is an overflow error otherwise. */
  lemma ParseUsizeComplete(d: string)
    requires |d| > 0 && AllDigits(d)
    ensures var v := if DecimalValue(d) <= UsizeMax then Some(DecimalValue(d)) else None;
            ParseUsize(d) == v && ParseUsize("+" + d) == v
  {
    assert ("+" + d)[1..] == d;
  }

  lemma {:induction false} DecimalValueLeadingZero(d: string)
    requires AllDigits(d)
    ensures AllDigits("0" + d) && DecimalValue("0" + d) == DecimalValue(d)
    decreases |d|
  {
    var z := "0" + d;
    assert forall i :: 0 < i < |z| ==> z[i] == d[i - 1];
    if |d| == 0 {
      assert z == "0";
      assert z[..0] == "";
    } else {
      var n := |d| - 1;
      DecimalValueLeadingZero(d[..n]);
      assert z[..|z| - 1] == "0" + d[..n];
      assert z[|z| - 1] == d[n];
    }
  }

  /** Leading zeros do not change the value: `"007"` parses as `7`. */
  lemma ParseUsizeIgnoresLeadingZero(d: string)
    requires |d| > 0 && AllDigits(d)
    ensures ParseUsize("0" + d) == ParseUsize(d)
  {
    DecimalValueLeadingZero(d);
  }
}
