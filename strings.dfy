/**
 * The Python string and integer built-ins that bot.py relies on:
 * `str.isspace`, `str.strip`, `str.split` with a separator and with
 * `maxsplit=1` on whitespace, `str.replace` of one character, `str(int)`
 * and `int(str)`.
 */
module Strings {
  import opened Optional

  /** `c.isspace()`: CPython's table of Unicode whitespace characters. */
  predicate IsSpace(c: char) {
    var n := c as int;
    (9 <= n <= 13) || (28 <= n <= 32) || n == 0x85 || n == 0xA0 || n == 0x1680
    || (0x2000 <= n <= 0x200A) || n == 0x2028 || n == 0x2029 || n == 0x202F
    || n == 0x205F || n == 0x3000
  }

  predicate StartsWith(s: string, prefix: string) {
    prefix <= s
  }

  /** The number of whitespace characters at the start of `s`. */
  function LeadingSpaces(s: string): (k: nat)
    ensures k <= |s|
    ensures forall i :: 0 <= i < k ==> IsSpace(s[i])
    ensures k == |s| || !IsSpace(s[k])
  {
    if s == [] || !IsSpace(s[0]) then 0 else 1 + LeadingSpaces(s[1..])
  }

  /** The number of whitespace characters at the end of `s`. */
  function TrailingSpaces(s: string): (k: nat)
    ensures k <= |s|
    ensures forall i :: |s| - k <= i < |s| ==> IsSpace(s[i])
    ensures k == |s| || !IsSpace(s[|s| - 1 - k])
  {
    if s == [] || !IsSpace(s[|s| - 1]) then 0 else 1 + TrailingSpaces(s[..|s| - 1])
  }

  /** `s.lstrip()` */
  function LStrip(s: string): string {
    s[LeadingSpaces(s)..]
  }

  /** `s.strip()`: the longest infix of `s` that neither starts nor ends with whitespace,
      obtained by removing only whitespace. */
  function Strip(s: string): (r: string)
    ensures r == [] || (!IsSpace(r[0]) && !IsSpace(r[|r| - 1]))
    ensures r == [] <==> forall i :: 0 <= i < |s| ==> IsSpace(s[i])
    ensures LeadingSpaces(s) + |r| <= |s| && r == s[LeadingSpaces(s)..LeadingSpaces(s) + |r|]
    ensures forall i :: LeadingSpaces(s) + |r| <= i < |s| ==> IsSpace(s[i])
  {
    StripWitness(s);
    var t := s[LeadingSpaces(s)..];
    t[..|t| - TrailingSpaces(t)]
  }

  /** Strip removes whitespace only, at both ends. */
  lemma StripWitness(s: string)
    ensures var a, t := LeadingSpaces(s), s[LeadingSpaces(s)..];
      var r := t[..|t| - TrailingSpaces(t)];
      && a + |r| <= |s| && r == s[a..a + |r|]
      && forall i :: a + |r| <= i < |s| ==> IsSpace(s[i])
  {
    var a := LeadingSpaces(s);
    var t := s[a..];
    var r := t[..|t| - TrailingSpaces(t)];
    forall i | a + |r| <= i < |s|
      ensures IsSpace(s[i])
    {
      assert s[i] == t[i - a];
    }
  }

  /** Text that starts and ends with a non-space character is left alone by strip. */
  lemma StripUnchanged(s: string)
    requires s != [] && !IsSpace(s[0]) && !IsSpace(s[|s| - 1])
    ensures LStrip(s) == s && Strip(s) == s
  {
  }

  /** Stripping after a left strip is the same as stripping. */
  lemma StripAfterLStrip(s: string)
    ensures Strip(LStrip(s)) == Strip(s)
  {
    var t := LStrip(s);
    assert LeadingSpaces(t) == 0;
  }

  /** Whitespace in front of a text adds to its leading whitespace. */
  lemma {:induction false} LeadingSpacesPast(sep: string, s: string)
    requires forall i :: 0 <= i < |sep| ==> IsSpace(sep[i])
    ensures LeadingSpaces(sep + s) == |sep| + LeadingSpaces(s)
  {
    if sep != [] {
      var t := sep + s;
      assert t[0] == sep[0] && IsSpace(t[0]);
      assert t[1..] == sep[1..] + s;
      LeadingSpacesPast(sep[1..], s);
      assert LeadingSpaces(t) == 1 + LeadingSpaces(sep[1..] + s);
    } else {
      assert sep + s == s;
    }
  }

  /** Whitespace in front of a text is discarded by a left strip. */
  lemma LStripPastSpaces(sep: string, s: string)
    requires forall i :: 0 <= i < |sep| ==> IsSpace(sep[i])
    ensures LeadingSpaces(sep + s) == |sep| + LeadingSpaces(s)
    ensures LStrip(sep + s) == LStrip(s)
  {
    LeadingSpacesPast(sep, s);
    var k := LeadingSpaces(s);
    assert (sep + s)[|sep| + k..] == s[k..];
  }

  /** The index of the first whitespace character of `s`, or `|s|` if there is none. */
  function FirstSpace(s: string): (k: nat)
    ensures k <= |s|
    ensures forall i :: 0 <= i < k ==> !IsSpace(s[i])
    ensures k == |s| || IsSpace(s[k])
  {
    if s == [] || IsSpace(s[0]) then 0 else 1 + FirstSpace(s[1..])
  }

  /**
   * `s.split(maxsplit=1)`: the first whitespace-delimited word, then (if any text
   * follows the whitespace run after it) the rest of the text with its leading
   * whitespace removed and its trailing whitespace kept.
   */
  function SplitFirstWord(s: string): (parts: seq<string>)
    ensures |parts| <= 2
    ensures |parts| == 0 <==> forall i :: 0 <= i < |s| ==> IsSpace(s[i])
    ensures forall k :: 0 <= k < |parts| ==> parts[k] != [] && !IsSpace(parts[k][0])
    ensures |parts| > 0 ==> forall i :: 0 <= i < |parts[0]| ==> !IsSpace(parts[0][i])
  {
    var t := LStrip(s);
    if t == [] then []
    else
      var w := FirstSpace(t);
      var rest := LStrip(t[w..]);
      if rest == [] then [t[..w]] else [t[..w], rest]
  }

  /** `sep.join(parts)` */
  function Join(parts: seq<string>, sep: string): string {
    if |parts| == 0 then ""
    else if |parts| == 1 then parts[0]
    else parts[0] + sep + Join(parts[1..], sep)
  }

  /** `s.count(c)`: how many times `c` occurs in `s`. */
  function Occurrences(s: string, c: char): nat {
    if s == [] then 0 else (if s[0] == c then 1 else 0) + Occurrences(s[1..], c)
  }

  lemma {:induction false} OccurrencesConcat(a: string, b: string, c: char)
    ensures Occurrences(a + b, c) == Occurrences(a, c) + Occurrences(b, c)
  {
    if a != [] {
      assert (a + b)[0] == a[0];
      assert (a + b)[1..] == a[1..] + b;
      OccurrencesConcat(a[1..], b, c);
    } else {
      assert a + b == b;
    }
  }

  lemma {:induction false} NoOccurrences(s: string, c: char)
    requires c !in s
    ensures Occurrences(s, c) == 0
  {
    if s != [] {
      NoOccurrences(s[1..], c);
    }
  }

  /**
   * `s.split(d)`: the pieces between occurrences of `d`; there is one more piece
   * than there are occurrences, no piece contains `d`, and joining the pieces
   * with `d` gives `s` back.
   */
  function Split(s: string, d: char): (parts: seq<string>)
    ensures |parts| == Occurrences(s, d) + 1
    ensures forall k :: 0 <= k < |parts| ==> d !in parts[k]
    ensures Join(parts, [d]) == s
  {
    if s == [] then [""]
    else
      var rest := Split(s[1..], d);
      assert s == [s[0]] + s[1..];
      if s[0] == d then
        var parts := [""] + rest;
        assert parts[1..] == rest;
        parts
      else
        var parts := [[s[0]] + rest[0]] + rest[1..];
        assert parts[1..] == rest[1..];
        assert Join(parts, [d]) == [s[0]] + Join(rest, [d]) by {
          if |rest| > 1 {
            assert Join(rest, [d]) == rest[0] + [d] + Join(rest[1..], [d]);
          }
        }
        parts
  }

  /** A text without the separator is one piece. */
  lemma {:induction false} SplitWithoutSeparator(a: string, d: char)
    requires d !in a
    ensures Split(a, d) == [a]
  {
    if a != [] {
      SplitWithoutSeparator(a[1..], d);
      assert [a[0]] + a[1..] == a;
    }
  }

  /** Splitting stops at the first separator. */
  lemma {:induction false} SplitAtFirstSeparator(a: string, b: string, d: char)
    requires d !in a
    ensures Split(a + [d] + b, d) == [a] + Split(b, d)
  {
    var s := a + [d] + b;
    if a == [] {
      assert s[0] == d && s[1..] == b;
    } else {
      assert s[0] == a[0] && s[1..] == a[1..] + [d] + b;
      SplitAtFirstSeparator(a[1..], b, d);
      var rest := Split(s[1..], d);
      assert rest == [a[1..]] + Split(b, d);
      assert rest[0] == a[1..] && rest[1..] == Split(b, d);
      assert [a[0]] + a[1..] == a;
    }
  }

  /** Split undoes Join when no piece contains the separator. */
  lemma {:induction false} SplitJoin(parts: seq<string>, d: char)
    requires |parts| >= 1
    requires forall k :: 0 <= k < |parts| ==> d !in parts[k]
    ensures Split(Join(parts, [d]), d) == parts
  {
    if |parts| == 1 {
      SplitWithoutSeparator(parts[0], d);
    } else {
      SplitJoin(parts[1..], d);
      SplitAtFirstSeparator(parts[0], Join(parts[1..], [d]), d);
      assert [parts[0]] + parts[1..] == parts;
    }
  }

  /** The index of the first `d` in `s`, or `|s|` if there is none. */
  function FirstIndex(s: string, d: char): (k: nat)
    ensures k <= |s|
    ensures d !in s[..k]
    ensures k < |s| ==> s[k] == d
  {
    if s == [] then 0
    else if s[0] == d then 0
    else
      assert s[..1 + FirstIndex(s[1..], d)] == [s[0]] + s[1..][..FirstIndex(s[1..], d)];
      1 + FirstIndex(s[1..], d)
  }

  /** `s.replace(a, b)` for single characters. */
  function ReplaceChar(s: string, a: char, b: char): (r: string)
    ensures |r| == |s|
    ensures forall i :: 0 <= i < |s| ==> r[i] == (if s[i] == a then b else s[i])
  {
    if s == [] then [] else [if s[0] == a then b else s[0]] + ReplaceChar(s[1..], a, b)
  }

  predicate IsDigit(c: char) {
    '0' <= c <= '9'
  }

  function Digit(n: nat): (c: char)
    requires n < 10
    ensures IsDigit(c) && c as int - '0' as int == n
  {
    ('0' as int + n) as char
  }

  /** `str(n)` for a natural number: decimal digits, most significant first. */
  function NatToString(n: nat): (s: string)
    ensures |s| >= 1
    ensures forall i :: 0 <= i < |s| ==> IsDigit(s[i])
  {
    if n < 10 then [Digit(n)] else NatToString(n / 10) + [Digit(n % 10)]
  }

  /** `str(n)`: a minus sign for negative numbers, then the decimal digits. */
  function IntToString(n: int): (s: string)
    ensures |s| >= 1
    ensures s[0] == '-' <==> n < 0
    ensures forall i :: 0 <= i < |s| ==> IsDigit(s[i]) || (i == 0 && s[i] == '-')
  {
    if n < 0 then "-" + NatToString(-n) else NatToString(n)
  }

  /** `str(n)` holds nothing but digits and a leading minus sign. */
  lemma IntToStringCharacters(n: int, c: char)
    requires !IsDigit(c) && c != '-'
    ensures c !in IntToString(n)
  {
  }

  /** The body of a decimal literal as `int()` accepts it: digits, with single
      underscores allowed between two digits. */
  predicate DecimalBody(s: string) {
    && |s| > 0
    && IsDigit(s[0])
    && IsDigit(s[|s| - 1])
    && (forall i :: 0 <= i < |s| ==> IsDigit(s[i]) || s[i] == '_')
    && (forall i :: 0 <= i < |s| - 1 ==> s[i] == '_' ==> s[i + 1] != '_')
  }

  /** The value of digits read left to right, underscores skipped. */
  function DigitsValue(s: string): nat
    requires forall i :: 0 <= i < |s| ==> IsDigit(s[i]) || s[i] == '_'
  {
    if s == [] then 0
    else if s[|s| - 1] == '_' then DigitsValue(s[..|s| - 1])
    else
      assert IsDigit(s[|s| - 1]);
      DigitsValue(s[..|s| - 1]) * 10 + (s[|s| - 1] as int - '0' as int)
  }

  /**
   * The whitespace `int()` ignores around a number: among ASCII characters only
   * tab, line feed, vertical tab, form feed, carriage return and space (not the
   * separators U+001C to U+001F that `isspace` accepts); beyond ASCII, whatever
   * `isspace` accepts.
   */
  predicate IntSpace(c: char) {
    var n := c as int;
    (9 <= n <= 13) || n == 32 || (n >= 128 && IsSpace(c))
  }

  /** The number of characters `int()` skips at the start of `s`. */
  function LeadingIntSpaces(s: string): (k: nat)
    ensures k <= |s|
    ensures forall i :: 0 <= i < k ==> IntSpace(s[i])
    ensures k == |s| || !IntSpace(s[k])
  {
    if s == [] || !IntSpace(s[0]) then 0 else 1 + LeadingIntSpaces(s[1..])
  }

  /** The number of characters `int()` skips at the end of `s`. */
  function TrailingIntSpaces(s: string): (k: nat)
    ensures k <= |s|
    ensures forall i :: |s| - k <= i < |s| ==> IntSpace(s[i])
    ensures k == |s| || !IntSpace(s[|s| - 1 - k])
  {
    if s == [] || !IntSpace(s[|s| - 1]) then 0 else 1 + TrailingIntSpaces(s[..|s| - 1])
  }

  /** The text `int()` reads: `s` without the whitespace it skips at either end. */
  function IntStrip(s: string): (r: string)
    ensures r == [] || (!IntSpace(r[0]) && !IntSpace(r[|r| - 1]))
    ensures r == [] <==> forall i :: 0 <= i < |s| ==> IntSpace(s[i])
    ensures LeadingIntSpaces(s) + |r| <= |s| && r == s[LeadingIntSpaces(s)..LeadingIntSpaces(s) + |r|]
    ensures forall i :: LeadingIntSpaces(s) + |r| <= i < |s| ==> IntSpace(s[i])
  {
    IntStripWitness(s);
    var t := s[LeadingIntSpaces(s)..];
    t[..|t| - TrailingIntSpaces(t)]
  }

  /** The text `int()` reads is `s` less the whitespace it skips at both ends. */
  lemma IntStripWitness(s: string)
    ensures var a, t := LeadingIntSpaces(s), s[LeadingIntSpaces(s)..];
      var r := t[..|t| - TrailingIntSpaces(t)];
      && a + |r| <= |s| && r == s[a..a + |r|]
      && forall i :: a + |r| <= i < |s| ==> IntSpace(s[i])
  {
    var a := LeadingIntSpaces(s);
    var t := s[a..];
    var r := t[..|t| - TrailingIntSpaces(t)];
    forall i | a + |r| <= i < |s|
      ensures IntSpace(s[i])
    {
      assert s[i] == t[i - a];
    }
  }

  /** Text that starts and ends with a character `int()` does not skip is read whole. */
  lemma IntStripUnchanged(s: string)
    requires s != [] && !IntSpace(s[0]) && !IntSpace(s[|s| - 1])
    ensures IntStrip(s) == s
  {
    assert LeadingIntSpaces(s) == 0 && TrailingIntSpaces(s) == 0;
  }

  /**
   * `int(s)`: the whitespace of `IntSpace` around the number is ignored, then one
   * optional sign and a decimal body; anything else is a ValueError, modelled as None.
   */
  function ParseInt(s: string): (r: Option<int>)
    ensures r.Some? ==> IntStrip(s) != [] && IsDigit(IntStrip(s)[|IntStrip(s)| - 1])
    ensures r.Some? && r.value < 0 ==> IntStrip(s)[0] == '-'
  {
    var t := IntStrip(s);
    var signed := |t| > 0 && (t[0] == '+' || t[0] == '-');
    var body := if signed then t[1..] else t;
    if DecimalBody(body) then
      var magnitude: int := DigitsValue(body);
      Some(if signed && t[0] == '-' then -magnitude else magnitude)
    else None
  }

  /** `int(' 7\n')` is 7: the surrounding blanks are skipped. */
  lemma IntSkipsBlanks()
    ensures ParseInt(" 7\n") == Some(7)
  {
    var s := " 7\n";
    assert LeadingIntSpaces(s) == 1 by {
      assert s[1..] == "7\n";
    }
    var t := s[1..];
    assert TrailingIntSpaces(t) == 1 by {
      assert t[..1] == "7";
    }
    assert IntStrip(s) == "7";
    assert DecimalBody("7");
    assert DigitsValue("7") == 7 by {
      assert "7"[..0] == "";
    }
  }

  /** `int('\x1c7')` raises: U+001C is whitespace to `isspace` but not to `int()`. */
  lemma IntKeepsSeparators()
    ensures ParseInt("\U{1C}7") == None
  {
    var s := "\U{1C}7";
    assert !IntSpace(s[0]) && !IntSpace(s[1]);
    assert IntStrip(s) == s;
    assert !DecimalBody(s);
  }

  lemma {:induction false} DigitsValueOfNatToString(n: nat)
    ensures DigitsValue(NatToString(n)) == n
  {
    var s := NatToString(n);
    if n >= 10 {
      DigitsValueOfNatToString(n / 10);
      assert s[..|s| - 1] == NatToString(n / 10);
    }
  }

  lemma NatToStringIsDecimalBody(n: nat)
    ensures DecimalBody(NatToString(n))
  {
  }

  /** `int(str(n)) == n` for every integer. */
  lemma IntToStringRoundTrip(n: int)
    ensures ParseInt(IntToString(n)) == Some(n)
  {
    var s := IntToString(n);
    var m: nat := if n < 0 then -n else n;
    var digits := NatToString(m);
    DigitsValueOfNatToString(m);
    NatToStringIsDecimalBody(m);
    assert IntStrip(s) == s by {
      assert s[|s| - 1] == digits[|digits| - 1];
      assert IsDigit(s[|s| - 1]);
      IntStripUnchanged(s);
    }
    if n < 0 {
      assert s[1..] == digits;
    } else {
      assert s == digits;
    }
  }
}
