/** Python string operations the modelled code relies on, over `seq<char>`:
    repetition, padding, `str(int)`, `int(str)`, `split`, `join`, `strip`
    and ASCII case mapping. */
module Text {
  import opened Errors

  /** `c * n` in Python: empty when `n <= 0`. */
  function Repeat(c: char, n: int): (r: string)
    ensures |r| == if n <= 0 then 0 else n
    ensures forall i :: 0 <= i < |r| ==> r[i] == c
    decreases if n <= 0 then 0 else n
  {
    if n <= 0 then "" else [c] + Repeat(c, n - 1)
  }

  /** Pads `value` on the right with spaces up to `width` characters. */
  function Fill(value: string, width: int): (r: string)
    ensures |r| == if |value| < width then width else |value|
    ensures r[..|value|] == value
    ensures forall i :: |value| <= i < |r| ==> r[i] == ' '
  {
    value + Repeat(' ', width - |value|)
  }

  predicate IsDigit(c: char) {
    '0' <= c <= '9'
  }

  predicate AllDigits(s: string) {
    forall i :: 0 <= i < |s| ==> IsDigit(s[i])
  }

  function DigitChar(d: nat): (c: char)
    requires d < 10
    ensures IsDigit(c) && c as int - '0' as int == d
  {
    ['0', '1', '2', '3', '4', '5', '6', '7', '8', '9'][d]
  }

  /** `str(n)` for a non-negative integer. */
  function NatToString(n: nat): (s: string)
    ensures |s| >= 1 && AllDigits(s)
    ensures |s| > 1 ==> s[0] != '0'
  {
    if n < 10 then [DigitChar(n)] else NatToString(n / 10) + [DigitChar(n % 10)]
  }

  /** `str(i)` for any integer. */
  function IntToString(i: int): (s: string)
    ensures |s| >= 1
    ensures s[0] == '-' <==> i < 0
  {
    if i < 0 then "-" + NatToString(-i) else NatToString(i)
  }

  /** The value of a non-empty string of decimal digits. */
  function DigitsValue(s: string): nat
    requires AllDigits(s)
  {
    if |s| == 0 then 0
    else DigitsValue(s[..|s| - 1]) * 10 + (s[|s| - 1] as int - '0' as int)
  }

  /** `int(s)` for an optional sign followed by decimal digits; `None` is the
      `ValueError` Python raises for anything else. */
  function ParseInt(s: string): (r: Option<int>)
    ensures r.Some? ==> |s| >= 1
  {
    if |s| >= 2 && (s[0] == '-' || s[0] == '+') && AllDigits(s[1..]) then
      var v: int := DigitsValue(s[1..]);
      Some(if s[0] == '-' then -v else v)
    else if |s| >= 1 && AllDigits(s) then Some(DigitsValue(s))
    else None
  }

  lemma {:induction false} DigitsValueAppend(s: string, c: char)
    requires AllDigits(s) && IsDigit(c)
    ensures AllDigits(s + [c])
    ensures DigitsValue(s + [c]) == DigitsValue(s) * 10 + (c as int - '0' as int)
  {
    assert (s + [c])[..|s|] == s;
  }

  lemma {:induction false} NatToStringValue(n: nat)
    ensures DigitsValue(NatToString(n)) == n
  {
    if n >= 10 {
      NatToStringValue(n / 10);
      DigitsValueAppend(NatToString(n / 10), DigitChar(n % 10));
    }
  }

  /** `int(str(i)) == i`. */
  lemma ParseIntToString(i: int)
    ensures ParseInt(IntToString(i)) == Some(i)
  {
    NatToStringValue(if i < 0 then -i else i);
    if i < 0 {
      assert IntToString(i)[1..] == NatToString(-i);
    }
  }

  /** How Python writes an integer: digits with no leading zero, with a minus
      sign before a non-zero value. */
  predicate IsCanonicalInt(s: string) {
    || (|s| >= 1 && AllDigits(s) && (|s| == 1 || s[0] != '0'))
    || (|s| >= 2 && s[0] == '-' && AllDigits(s[1..]) && s[1] != '0')
  }

  lemma {:induction false} DigitsValuePositive(s: string)
    requires |s| >= 1 && AllDigits(s) && s[0] != '0'
    ensures DigitsValue(s) >= 1
    decreases |s|
  {
    if |s| > 1 {
      DigitsValuePositive(s[..|s| - 1]);
    }
  }

  lemma {:induction false} NatToStringOfDigits(s: string)
    requires |s| >= 1 && AllDigits(s) && (|s| == 1 || s[0] != '0')
    ensures NatToString(DigitsValue(s)) == s
    decreases |s|
  {
    if |s| > 1 {
      var p := s[..|s| - 1];
      var d := s[|s| - 1] as int - '0' as int;
      DigitsValuePositive(p);
      NatToStringOfDigits(p);
      var v := DigitsValue(s);
      assert v == DigitsValue(p) * 10 + d;
      assert v / 10 == DigitsValue(p) && v % 10 == d;
      assert s == p + [DigitChar(d)];
    }
  }

  /** A canonically written integer survives `str(int(s))` unchanged. */
  lemma CanonicalIntRoundTrip(s: string)
    requires IsCanonicalInt(s)
    ensures ParseInt(s).Some? && IntToString(ParseInt(s).value) == s
  {
    if |s| >= 1 && AllDigits(s) && (|s| == 1 || s[0] != '0') {
      NatToStringOfDigits(s);
      assert IsDigit(s[0]);
      assert ParseInt(s) == Some(DigitsValue(s));
    } else {
      var t := s[1..];
      DigitsValuePositive(t);
      NatToStringOfDigits(t);
      var v: int := DigitsValue(t);
      assert ParseInt(s) == Some(-v);
      assert IntToString(-v) == "-" + NatToString(v);
      assert "-" + t == s;
    }
  }

  /** `s.split(c)` in Python: the pieces between occurrences of `c`. */
  function SplitOn(s: string, c: char): (parts: seq<string>)
    ensures |parts| >= 1
    ensures forall k :: 0 <= k < |parts| ==> c !in parts[k]
  {
    if |s| == 0 then [""]
    else if s[0] == c then [""] + SplitOn(s[1..], c)
    else
      var rest := SplitOn(s[1..], c);
      [[s[0]] + rest[0]] + rest[1..]
  }

  /** `sep.join(parts)` in Python. */
  function JoinWith(parts: seq<string>, sep: string): string
  {
    if |parts| == 0 then ""
    else if |parts| == 1 then parts[0]
    else parts[0] + sep + JoinWith(parts[1..], sep)
  }

  /** Splitting on `c` and joining back with `c` gives the string back. */
  lemma {:induction false} JoinSplitOn(s: string, c: char)
    ensures JoinWith(SplitOn(s, c), [c]) == s
  {
    if |s| > 0 {
      JoinSplitOn(s[1..], c);
      var rest := SplitOn(s[1..], c);
      if s[0] != c {
        if |rest| == 1 {
          assert SplitOn(s, c) == [[s[0]] + rest[0]];
        } else {
          assert SplitOn(s, c)[1..] == rest[1..];
        }
      }
    }
  }

  /** `s.strip(chars)`: drops every leading and trailing character in `chars`. */
  function Strip(s: string, chars: set<char>): (r: string)
    ensures |r| <= |s|
  {
    StripRight(StripLeft(s, chars), chars)
  }

  function StripLeft(s: string, chars: set<char>): (r: string)
    ensures |r| <= |s| && r == s[|s| - |r|..]
    ensures |r| > 0 ==> r[0] !in chars
    ensures forall i :: 0 <= i < |s| - |r| ==> s[i] in chars
  {
    if |s| > 0 && s[0] in chars then StripLeft(s[1..], chars) else s
  }

  function StripRight(s: string, chars: set<char>): (r: string)
    ensures |r| <= |s| && r == s[..|r|]
    ensures |r| > 0 ==> r[|r| - 1] !in chars
    ensures forall i :: |r| <= i < |s| ==> s[i] in chars
  {
    if |s| > 0 && s[|s| - 1] in chars then StripRight(s[..|s| - 1], chars) else s
  }

  function LowerChar(c: char): char {
    if 'A' <= c <= 'Z' then (c as int + 32) as char else c
  }

  function UpperChar(c: char): char {
    if 'a' <= c <= 'z' then (c as int - 32) as char else c
  }

  /** `s.lower()` on ASCII letters. */
  function Lower(s: string): (r: string)
    ensures |r| == |s| && forall i :: 0 <= i < |s| ==> r[i] == LowerChar(s[i])
  {
    seq(|s|, i requires 0 <= i < |s| => LowerChar(s[i]))
  }

  /** `s.upper()` on ASCII letters. */
  function Upper(s: string): (r: string)
    ensures |r| == |s| && forall i :: 0 <= i < |s| ==> r[i] == UpperChar(s[i])
  {
    seq(|s|, i requires 0 <= i < |s| => UpperChar(s[i]))
  }

  predicate StartsWith(s: string, prefix: string) {
    |prefix| <= |s| && s[..|prefix|] == prefix
  }
  /** `s.split(sep)` in Python for a non-empty separator: cuts at the leftmost
      occurrence of `sep`, then goes on after it. */
  function SplitSep(s: string, sep: string): (parts: seq<string>)
    requires |sep| > 0
    ensures |parts| >= 1
    decreases |s|
  {
    if |s| < |sep| then [s]
    else if s[..|sep|] == sep then [""] + SplitSep(s[|sep|..], sep)
    else
      var rest := SplitSep(s[1..], sep);
      [[s[0]] + rest[0]] + rest[1..]
  }

  /** The number of occurrences of `c` in `s`. */
  function Count(s: string, c: char): nat
  {
    if |s| == 0 then 0 else (if s[0] == c then 1 else 0) + Count(s[1..], c)
  }

  lemma {:induction false} CountAppend(a: string, b: string, c: char)
    ensures Count(a + b, c) == Count(a, c) + Count(b, c)
  {
    if |a| > 0 {
      assert (a + b)[0] == a[0];
      assert (a + b)[1..] == a[1..] + b;
      CountAppend(a[1..], b, c);
    } else {
      assert a + b == b;
    }
  }

  lemma {:induction false} CountRepeat(d: char, n: int, c: char)
    ensures Count(Repeat(d, n), c) == if d == c && n > 0 then n else 0
    decreases if n <= 0 then 0 else n
  {
    if n > 0 {
      assert Repeat(d, n)[1..] == Repeat(d, n - 1);
      CountRepeat(d, n - 1, c);
    }
  }
}
