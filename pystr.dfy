// Python string built-ins that the benchmark client relies on, stated as
// functions on `string` (a sequence of characters).
module PyStr {
  import opened Wrappers

  /** `s.find(c, start)`: the first index at or after `start` holding `c`, or -1. */
  function Find(s: string, c: char, start: nat): (r: int)
    ensures r == -1 || (start <= r < |s| && s[r] == c)
    ensures r != -1 ==> forall k :: start <= k < r ==> s[k] != c
    ensures r == -1 ==> forall k :: start <= k < |s| ==> s[k] != c
    decreases |s| - start
  {
    if start >= |s| then -1
    else if s[start] == c then start
    else Find(s, c, start + 1)
  }

  /** The `n` characters of `s` from index `i` on. */
  function Slice(s: string, i: nat, n: nat): string
    requires i + n <= |s|
  {
    s[i..i + n]
  }

  /** `s.startswith(p)`. */
  predicate StartsWith(s: string, p: string)
  {
    |p| <= |s| && s[..|p|] == p
  }

  /** `sep.join(parts)`. */
  function Join(sep: string, parts: seq<string>): string
  {
    if |parts| == 0 then ""
    else if |parts| == 1 then parts[0]
    else parts[0] + sep + Join(sep, parts[1..])
  }

  lemma {:induction false} JoinAppend(sep: string, parts: seq<string>, last: string)
    requires |parts| > 0
    ensures Join(sep, parts + [last]) == Join(sep, parts) + sep + last
    decreases |parts|
  {
    if |parts| == 1 {
      assert parts + [last] == [parts[0], last];
    } else {
      assert (parts + [last])[1..] == parts[1..] + [last];
      JoinAppend(sep, parts[1..], last);
    }
  }

  /**
   * The characters Python's argument-less `strip()` removes, those
   * `str.isspace` accepts: tab to carriage return, file separator to
   * space, and the white space beyond ASCII.
   */
  predicate IsSpace(c: char)
  {
    ('\t' <= c <= '\r') || ('\U{1C}' <= c <= ' ') || ('\U{85}' <= c && WideSpace(c))
  }

  /** The white space of `str.isspace` beyond ASCII. */
  predicate WideSpace(c: char)
  {
    || c == '\U{85}' || c == '\U{A0}' || c == '\U{1680}' || ('\U{2000}' <= c <= '\U{200A}')
    || c == '\U{2028}' || c == '\U{2029}' || c == '\U{202F}' || c == '\U{205F}' || c == '\U{3000}'
  }

  function StripLeft(s: string): (r: string)
    ensures |r| <= |s| && r == s[|s| - |r|..]
    ensures forall k :: 0 <= k < |s| - |r| ==> IsSpace(s[k])
    ensures r == [] || !IsSpace(r[0])
  {
    if |s| > 0 && IsSpace(s[0]) then StripLeft(s[1..]) else s
  }

  function StripRight(s: string): (r: string)
    ensures |r| <= |s| && r == s[..|r|]
    ensures forall k :: |r| <= k < |s| ==> IsSpace(s[k])
    ensures r == [] || !IsSpace(r[|r| - 1])
  {
    if |s| > 0 && IsSpace(s[|s| - 1]) then StripRight(s[..|s| - 1]) else s
  }

  /** `s.strip()`: the longest infix that neither starts nor ends with white space. */
  function Strip(s: string): (r: string)
    ensures r == [] || (!IsSpace(r[0]) && !IsSpace(r[|r| - 1]))
    ensures exists i :: 0 <= i <= |s| - |r| && Slice(s, i, |r|) == r
  {
    var l := StripLeft(s);
    var r := StripRight(l);
    var i := |s| - |l|;
    assert l == s[i..];
    assert r == l[..|r|] == Slice(s, i, |r|);
    r
  }

  predicate IsStripped(s: string)
  {
    s == [] || (!IsSpace(s[0]) && !IsSpace(s[|s| - 1]))
  }

  /** Stripping only removes characters, so one absent from s stays absent. */
  lemma StripKeepsOut(s: string, c: char)
    requires c !in s
    ensures c !in Strip(s) && IsStripped(Strip(s))
  {
    var r := Strip(s);
    var i :| 0 <= i <= |s| - |r| && Slice(s, i, |r|) == r;
    forall k | 0 <= k < |r|
      ensures r[k] != c
    {
      assert r[k] == s[i + k];
    }
  }

  /** Stripping a stripped text padded with one space on each side gives the text back. */
  lemma StripPadded(c: string)
    requires IsStripped(c)
    ensures Strip(" " + c + " ") == c
  {
    var p := " " + c + " ";
    assert p[1..] == c + " ";
    if c == [] {
      assert (c + " ")[1..] == [];
    } else {
      assert StripLeft(p) == c + " ";
      assert (c + " ")[..|c|] == c;
    }
  }

  /** `s.replace("%s", v, 1)`: replaces the first `%s` placeholder, if any. */
  function ReplaceFirst(s: string, v: string): string
  {
    if |s| < 2 then s
    else if s[0] == '%' && s[1] == 's' then v + s[2..]
    else [s[0]] + ReplaceFirst(s[1..], v)
  }

  /** Repeated `replace("%s", str(x), 1)` over a parameter list, as the SQL builders do. */
  function FillPlaceholders(s: string, vals: seq<string>): string
    decreases |vals|
  {
    if vals == [] then s else FillPlaceholders(ReplaceFirst(s, vals[0]), vals[1..])
  }

  predicate NoPercent(s: string)
  {
    forall k :: 0 <= k < |s| ==> s[k] != '%'
  }

  /** `sub in s` (and `re.search(sub, s)` for a pattern without metacharacters). */
  predicate Contains(s: string, sub: string)
  {
    exists i :: 0 <= i <= |s| - |sub| && Slice(s, i, |sub|) == sub
  }

  function DigitChar(d: nat): (c: char)
    requires d < 10
    ensures '0' <= c <= '9' && c as int - '0' as int == d
  {
    ('0' as int + d) as char
  }

  predicate IsDigit(c: char) { '0' <= c <= '9' }

  /** `str(n)` for a non-negative integer: its decimal digits without leading zeros. */
  function NatToString(n: nat): (s: string)
    ensures |s| > 0 && forall k :: 0 <= k < |s| ==> IsDigit(s[k])
    ensures |s| > 1 ==> s[0] != '0'
    decreases n
  {
    if n < 10 then [DigitChar(n)] else NatToString(n / 10) + [DigitChar(n % 10)]
  }

  /** `str(n)` for any integer. */
  function IntToString(n: int): string
  {
    if n < 0 then "-" + NatToString(-n) else NatToString(n)
  }

  /** The value of a string of decimal digits. */
  function DigitsValue(s: string): nat
    requires forall k :: 0 <= k < |s| ==> IsDigit(s[k])
  {
    if s == [] then 0
    else
      assert IsDigit(s[|s| - 1]);
      10 * DigitsValue(s[..|s| - 1]) + (s[|s| - 1] as int - '0' as int)
  }

  predicate IsDigits(s: string)
  {
    |s| > 0 && forall k :: 0 <= k < |s| ==> IsDigit(s[k])
  }

  /**
   * Python 3's `eval` of an integer literal: an optional minus sign and decimal
   * digits without a leading zero (`0` itself is allowed). Anything else is a
   * failure here.
   */
  function EvalInt(s: string): Option<int>
  {
    var neg := |s| > 0 && s[0] == '-';
    var d := if neg then s[1..] else s;
    if IsDigits(d) && (|d| == 1 || d[0] != '0') then
      Some(if neg then 0 - DigitsValue(d) else DigitsValue(d))
    else None
  }

  lemma {:induction false} DigitsValueOfNat(n: nat)
    ensures DigitsValue(NatToString(n)) == n
    decreases n
  {
    if n >= 10 {
      var s := NatToString(n);
      assert s[..|s| - 1] == NatToString(n / 10);
      DigitsValueOfNat(n / 10);
    }
  }

  /** `eval(str(n)) == n`: printing an integer and evaluating the text gives it back. */
  lemma IntToStringRoundTrip(n: int)
    ensures EvalInt(IntToString(n)) == Some(n)
  {
    var s := IntToString(n);
    if n < 0 {
      var d := NatToString(-n);
      assert s[0] == '-' && s[1..] == d;
      assert IsDigits(d) && (|d| == 1 || d[0] != '0');
      DigitsValueOfNat(-n);
      assert EvalInt(s) == Some(0 - DigitsValue(d));
    } else {
      assert s == NatToString(n) && IsDigit(s[0]);
      assert IsDigits(s) && (|s| == 1 || s[0] != '0');
      DigitsValueOfNat(n);
      assert EvalInt(s) == Some(DigitsValue(s));
    }
  }
}
