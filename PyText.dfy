/**
 * The few Python built-ins the timecode code relies on, over strings of
 * characters: `str(n)`, the format spec `{n:02}`, `int(text)`,
 * `text.split(sep)` and `text.replace(a, b)` for one-character arguments.
 */
module PyText {

  datatype Option<T> = None | Some(value: T)

  predicate IsDigit(c: char) {
    '0' <= c <= '9'
  }

  function DigitValue(c: char): (d: nat)
    requires IsDigit(c)
    ensures d < 10
  {
    c as int - '0' as int
  }

  function DigitChar(d: nat): (c: char)
    requires d < 10
    ensures IsDigit(c) && DigitValue(c) == d
  {
    ('0' as int + d) as char
  }

  /** `str(n)` for a non-negative integer: its shortest decimal numeral. */
  function Decimal(n: nat): (s: string)
    ensures |s| >= 1
    ensures forall i :: 0 <= i < |s| ==> IsDigit(s[i])
    ensures s[0] == '0' <==> n == 0
    ensures n < 10 <==> |s| == 1
  {
    if n < 10 then [DigitChar(n)] else Decimal(n / 10) + [DigitChar(n % 10)]
  }

  /** A character that may appear in a printed integer: a digit or a minus sign. */
  predicate IsNumeralChar(c: char) {
    IsDigit(c) || c == '-'
  }

  /** `str(x)` for any integer: a minus sign in front of a negative value. */
  function Str(x: int): (s: string)
    ensures |s| >= 1 && IsDigit(s[|s| - 1])
    ensures s[0] == '-' <==> x < 0
    ensures forall i :: 0 < i < |s| ==> IsDigit(s[i])
    ensures forall i :: 0 <= i < |s| ==> IsNumeralChar(s[i])
    ensures x >= 0 ==> (s[0] == '0' <==> x == 0)
    ensures x < 0 ==> |s| >= 2 && s[1] != '0'
  {
    if x < 0 then "-" + Decimal(-x) else Decimal(x)
  }

  /**
   * The format spec `{x:02}`: zero-filled to a width of at least two, the
   * zeros going after a sign; a value that needs more characters is
   * printed in full.
   */
  function Pad2(x: int): (s: string)
    ensures |s| == if |Str(x)| < 2 then 2 else |Str(x)|
    ensures 0 <= x < 100 ==> s == [DigitChar(x / 10), DigitChar(x % 10)]
    ensures x >= 100 || x < 0 ==> s == Str(x)
    ensures |s| >= 1 && IsDigit(s[|s| - 1])
    ensures s[0] == '-' <==> x < 0
    ensures forall i :: 0 < i < |s| ==> IsDigit(s[i])
    ensures forall i :: 0 <= i < |s| ==> IsNumeralChar(s[i])
  {
    if 0 <= x < 10 then "0" + Decimal(x)
    else
      assert 10 <= x < 100 ==> Decimal(x / 10) == [DigitChar(x / 10)];
      Str(x)
  }

  /**
   * The characters `int()` skips around a numeral, within Latin-1: the ASCII
   * white space (space and `\t` to `\r`), and the two non-ASCII spaces
   * `\x85` and `\xa0`. The ASCII separators `\x1c` to `\x1f` are not skipped.
   */
  predicate IsSpace(c: char) {
    c == ' ' || '\t' <= c <= '\r' || c == '\U{85}' || c == '\U{A0}'
  }

  /** Drops the leading white space. */
  function TrimStart(s: string): (r: string)
    ensures |r| <= |s| && r == s[|s| - |r|..]
    ensures forall i :: 0 <= i < |s| - |r| ==> IsSpace(s[i])
    ensures r == [] || !IsSpace(r[0])
  {
    if s != [] && IsSpace(s[0]) then
      var r := TrimStart(s[1..]);
      assert s[1..][|s| - 1 - |r|..] == s[|s| - |r|..];
      assert forall i :: 1 <= i < |s| - |r| ==> s[i] == s[1..][i - 1];
      r
    else s
  }

  /** Drops the trailing white space. */
  function TrimEnd(s: string): (r: string)
    ensures |r| <= |s| && r == s[..|r|]
    ensures forall i :: |r| <= i < |s| ==> IsSpace(s[i])
    ensures r == [] || !IsSpace(r[|r| - 1])
  {
    if s != [] && IsSpace(s[|s| - 1]) then TrimEnd(s[..|s| - 1]) else s
  }

  /** Drops the white space `int()` ignores around a numeral, at both ends. */
  function Strip(s: string): string {
    TrimEnd(TrimStart(s))
  }

  /**
   * The digit part `int()` accepts in base 10: one or more digits, with
   * single underscores allowed between two digits.
   */
  predicate IsDigitRun(d: string) {
    && |d| > 0
    && IsDigit(d[0])
    && IsDigit(d[|d| - 1])
    && (forall i :: 0 <= i < |d| ==> IsDigit(d[i]) || d[i] == '_')
    && (forall i :: 0 <= i < |d| - 1 ==> IsDigit(d[i]) || IsDigit(d[i + 1]))
  }

  /** The value of a digit run read left to right, underscores skipped. */
  function DigitsValue(d: string): nat
    requires forall i :: 0 <= i < |d| ==> IsDigit(d[i]) || d[i] == '_'
  {
    if d == [] then 0
    else if d[|d| - 1] == '_' then DigitsValue(d[..|d| - 1])
    else DigitsValue(d[..|d| - 1]) * 10 + DigitValue(d[|d| - 1])
  }

  /**
   * `int(s)` on a string: `None` stands for the `ValueError` Python raises.
   * White space around the numeral is ignored, a `+` or `-` sign may come
   * first, and leading zeros are allowed.
   */
  function ParseInt(s: string): Option<int> {
    var t := Strip(s);
    if |t| > 0 && (t[0] == '+' || t[0] == '-') then
      if IsDigitRun(t[1..]) then
        Some(if t[0] == '-' then -(DigitsValue(t[1..]) as int) else DigitsValue(t[1..]))
      else None
    else if IsDigitRun(t) then Some(DigitsValue(t))
    else None
  }

  /** `s.split(sep)` for a one-character separator: empty pieces are kept. */
  function Split(s: string, sep: char): (parts: seq<string>)
    ensures |parts| >= 1
    ensures forall i :: 0 <= i < |parts| ==> sep !in parts[i]
  {
    if s == [] then [[]]
    else
      var rest := Split(s[1..], sep);
      if s[0] == sep then [[]] + rest else [[s[0]] + rest[0]] + rest[1..]
  }

  /** `sep.join(parts)`, the inverse of `Split`. */
  function Join(parts: seq<string>, sep: char): string {
    if parts == [] then []
    else if |parts| == 1 then parts[0]
    else parts[0] + [sep] + Join(parts[1..], sep)
  }

  /** `s.replace(from, to)` for one-character arguments: every occurrence is replaced. */
  function ReplaceChar(s: string, from: char, to: char): (r: string)
    ensures |r| == |s|
    ensures forall i :: 0 <= i < |s| ==> r[i] == if s[i] == from then to else s[i]
  {
    if s == [] then [] else [if s[0] == from then to else s[0]] + ReplaceChar(s[1..], from, to)
  }

  // ---------------------------------------------------------------------
  // Properties

  /** Reading back a decimal numeral gives its value. */
  lemma {:induction false} DecimalValue(n: nat)
    ensures DigitsValue(Decimal(n)) == n
  {
    if n >= 10 {
      var s := Decimal(n / 10);
      assert Decimal(n)[..|Decimal(n)| - 1] == s;
      DecimalValue(n / 10);
    }
  }

  /** A numeral without white space around it is read as it stands. */
  lemma StripUnspaced(s: string)
    requires s != [] && !IsSpace(s[0]) && !IsSpace(s[|s| - 1])
    ensures Strip(s) == s
  {
    assert TrimStart(s) == s;
  }

  /** An unsigned digit run is read as its value. */
  lemma ParseUnsigned(d: string)
    requires IsDigitRun(d)
    ensures ParseInt(d) == Some(DigitsValue(d))
  {
    StripUnspaced(d);
  }

  /** A minus sign before a digit run negates its value. */
  lemma ParseSigned(d: string)
    requires IsDigitRun(d)
    ensures ParseInt("-" + d) == Some(-(DigitsValue(d) as int))
  {
    var s := "-" + d;
    assert s[|s| - 1] == d[|d| - 1];
    StripUnspaced(s);
    assert s[1..] == d;
  }

  /** A minus sign before a decimal numeral negates its value. */
  lemma ParseNegative(n: nat)
    ensures ParseInt("-" + Decimal(n)) == Some(-(n as int))
  {
    DecimalIsDigitRun(n);
    ParseSigned(Decimal(n));
    DecimalValue(n);
  }

  /** A decimal numeral is read as its value. */
  lemma ParseDecimal(n: nat)
    ensures ParseInt(Decimal(n)) == Some(n)
  {
    DecimalIsDigitRun(n);
    ParseUnsigned(Decimal(n));
    DecimalValue(n);
  }

  /** `int(str(x)) == x` for every integer. */
  lemma ParseStr(x: int)
    ensures ParseInt(Str(x)) == Some(x)
  {
    if x < 0 {
      var n: nat := -x;
      var s := "-" + Decimal(n);
      assert Str(x) == s;
      ParseNegative(n);
    } else {
      ParseDecimal(x);
    }
  }

  /** A decimal numeral is a digit run `int()` accepts. */
  lemma DecimalIsDigitRun(n: nat)
    ensures IsDigitRun(Decimal(n))
  {
  }

  /** `int(f"{x:02}") == x` for every integer: the padding is read back as leading zeros. */
  lemma ParsePad2(x: int)
    ensures ParseInt(Pad2(x)) == Some(x)
  {
    if 0 <= x < 10 {
      var s := [DigitChar(0), DigitChar(x)];
      assert Pad2(x) == s;
      assert DigitsValue(s[..1]) == 0 by {
        assert s[..1][..0] == [];
      }
      assert DigitsValue(s) == x;
      ParseUnsigned(s);
    } else {
      assert Pad2(x) == Str(x);
      ParseStr(x);
    }
  }

  /** Splitting a string with no separator in it gives the string itself. */
  lemma {:induction false} SplitWithoutSep(a: string, sep: char)
    requires sep !in a
    ensures Split(a, sep) == [a]
  {
    if a != [] {
      assert sep !in a[1..];
      SplitWithoutSep(a[1..], sep);
      assert [a[0]] + a[1..] == a;
    }
  }

  /** A separator after a piece free of it ends that piece. */
  lemma {:induction false} SplitAtSep(a: string, sep: char, b: string)
    requires sep !in a
    ensures Split(a + [sep] + b, sep) == [a] + Split(b, sep)
  {
    if a == [] {
      assert a + [sep] + b == [sep] + b;
      assert ([sep] + b)[1..] == b;
    } else {
      assert (a + [sep] + b)[1..] == a[1..] + [sep] + b;
      SplitAtSep(a[1..], sep, b);
      assert [a[0]] + a[1..] == a;
    }
  }

  /** `sep.join(s.split(sep)) == s` */
  lemma {:induction false} JoinSplit(s: string, sep: char)
    ensures Join(Split(s, sep), sep) == s
  {
    if s != [] {
      JoinSplit(s[1..], sep);
      var rest := Split(s[1..], sep);
      if s[0] == sep {
        assert ([[]] + rest)[1..] == rest;
        assert Join([[]] + rest, sep) == [sep] + Join(rest, sep);
      } else {
        var parts := [[s[0]] + rest[0]] + rest[1..];
        assert s == [s[0]] + Join(rest, sep);
        if |rest| == 1 {
          assert Join(parts, sep) == [s[0]] + rest[0];
          assert Join(rest, sep) == rest[0];
        } else {
          assert parts[1..] == rest[1..];
          calc {
            Join(parts, sep);
            parts[0] + [sep] + Join(rest[1..], sep);
            [s[0]] + (rest[0] + [sep] + Join(rest[1..], sep));
            [s[0]] + Join(rest, sep);
          }
        }
      }
    }
  }

  /** `sep.join(parts).split(sep) == parts` when no part holds the separator. */
  lemma {:induction false} SplitJoin(parts: seq<string>, sep: char)
    requires |parts| >= 1
    requires forall i :: 0 <= i < |parts| ==> sep !in parts[i]
    ensures Split(Join(parts, sep), sep) == parts
  {
    if |parts| == 1 {
      SplitWithoutSep(parts[0], sep);
    } else {
      SplitJoin(parts[1..], sep);
      SplitAtSep(parts[0], sep, Join(parts[1..], sep));
      assert [parts[0]] + parts[1..] == parts;
    }
  }

  /** An ASCII separator such as `\x1c` before the digits makes `int()` fail. */
  lemma FileSeparatorRejected()
    ensures ParseInt("\U{1C}0") == None
  {
    StripUnspaced("\U{1C}0");
  }

  /** Replacing a character that does not occur changes nothing. */
  lemma ReplaceAbsent(s: string, from: char, to: char)
    requires from !in s
    ensures ReplaceChar(s, from, to) == s
  {
    assert forall i :: 0 <= i < |s| ==> ReplaceChar(s, from, to)[i] == s[i];
  }

  /** Replacement works piecewise. */
  lemma ReplaceConcat(a: string, b: string, from: char, to: char)
    ensures ReplaceChar(a + b, from, to) == ReplaceChar(a, from, to) + ReplaceChar(b, from, to)
  {
  }
}
