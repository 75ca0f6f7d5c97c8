/** The .NET string operations the converter relies on: `String.Split` with a
    single separator character, `Int32.Parse` (optional sign and decimal
    digits, 32-bit range) and the decimal rendering of integers used by
    `ToString`. */
module Text {
  import opened Wrappers

  const Int32Min: int := -0x8000_0000
  const Int32Max: int := 0x7FFF_FFFF

  predicate InInt32(n: int) {
    Int32Min <= n <= Int32Max
  }

  /** Number of occurrences of `c` in `s`. */
  function Occurrences(s: string, c: char): nat
    decreases |s|
  {
    if s == [] then 0 else (if s[0] == c then 1 else 0) + Occurrences(s[1..], c)
  }

  /** `s.Split(sep)`: every separator ends one piece; empty pieces are kept, so
      the empty string gives one empty piece and there is always one piece more
      than there are separators. */
  function Split(s: string, sep: char): (parts: seq<string>)
    ensures |parts| == Occurrences(s, sep) + 1
    ensures forall i :: 0 <= i < |parts| ==> sep !in parts[i]
    decreases |s|
  {
    if s == [] then [""]
    else
      var rest := Split(s[1..], sep);
      if s[0] == sep then [""] + rest
      else [[s[0]] + rest[0]] + rest[1..]
  }

  /** `String.Join(sep, parts)`: the inverse of `Split`. */
  function Join(parts: seq<string>, sep: char): string
    requires |parts| >= 1
    decreases |parts|
  {
    if |parts| == 1 then parts[0] else parts[0] + [sep] + Join(parts[1..], sep)
  }

  /** Splitting and joining again gives back the original string. */
  lemma {:induction false} JoinSplit(s: string, sep: char)
    ensures Join(Split(s, sep), sep) == s
    decreases |s|
  {
    if s != [] {
      JoinSplit(s[1..], sep);
      var rest := Split(s[1..], sep);
      if s[0] == sep {
        assert Split(s, sep)[1..] == rest;
      } else {
        var parts := Split(s, sep);
        assert parts[1..] == rest[1..];
        if |rest| > 1 {
          assert rest[0] + [sep] + Join(rest[1..], sep) == s[1..];
        }
        assert [s[0]] + s[1..] == s;
      }
    }
  }

  /** A piece free of the separator, followed by the separator, splits off as
      exactly that piece. */
  lemma {:induction false} SplitPieceThen(p: string, sep: char, rest: string)
    requires sep !in p
    ensures Split(p + [sep] + rest, sep) == [p] + Split(rest, sep)
    decreases |p|
  {
    if p == [] {
      assert (p + [sep] + rest)[1..] == rest;
    } else {
      SplitPieceThen(p[1..], sep, rest);
      assert (p + [sep] + rest)[1..] == p[1..] + [sep] + rest;
      assert [p[0]] + p[1..] == p;
    }
  }

  /** A string free of the separator is a single piece. */
  lemma {:induction false} SplitNoSeparator(p: string, sep: char)
    requires sep !in p
    ensures Split(p, sep) == [p]
    decreases |p|
  {
    if p != [] {
      SplitNoSeparator(p[1..], sep);
      assert [p[0]] + p[1..] == p;
    }
  }

  /** Joining separator-free pieces and splitting again gives back the pieces. */
  lemma {:induction false} SplitJoin(parts: seq<string>, sep: char)
    requires |parts| >= 1
    requires forall i :: 0 <= i < |parts| ==> sep !in parts[i]
    ensures Split(Join(parts, sep), sep) == parts
    decreases |parts|
  {
    if |parts| == 1 {
      SplitNoSeparator(parts[0], sep);
    } else {
      SplitJoin(parts[1..], sep);
      SplitPieceThen(parts[0], sep, Join(parts[1..], sep));
      assert [parts[0]] + parts[1..] == parts;
    }
  }

  predicate IsDigit(c: char) {
    '0' <= c <= '9'
  }

  predicate AllDigits(s: string) {
    forall i :: 0 <= i < |s| ==> IsDigit(s[i])
  }

  function DigitValue(c: char): nat
    requires IsDigit(c)
  {
    c as int - '0' as int
  }

  function DigitChar(d: nat): (c: char)
    requires d < 10
    ensures IsDigit(c) && DigitValue(c) == d
  {
    ('0' as int + d) as char
  }

  /** The value of a string of decimal digits, most significant first. */
  function DigitsValue(s: string): nat
    requires AllDigits(s)
    decreases |s|
  {
    if s == [] then 0 else DigitsValue(s[..|s| - 1]) * 10 + DigitValue(s[|s| - 1])
  }

  /** `Int32.Parse` on an invariant-culture integer: an optional '+' or '-'
      followed by at least one decimal digit, whose value fits in 32 bits.
      Anything else is a format or overflow exception, here `None`. */
  function ParseInt(s: string): (r: Option<int>)
    ensures r.Some? ==> InInt32(r.value)
  {
    var signed := |s| > 0 && (s[0] == '-' || s[0] == '+');
    var digits := if signed then s[1..] else s;
    if digits == [] || !AllDigits(digits) then None
    else
      var magnitude: int := DigitsValue(digits);
      var v := if |s| > 0 && s[0] == '-' then -magnitude else magnitude;
      if InInt32(v) then Some(v) else None
  }

  /** The decimal rendering of a natural number, without leading zeros. */
  function NatToString(n: nat): (s: string)
    ensures |s| >= 1 && AllDigits(s) && DigitsValue(s) == n
    ensures s[0] == '0' <==> n == 0
    decreases n
  {
    if n < 10 then [DigitChar(n)]
    else
      var high := NatToString(n / 10);
      var s := high + [DigitChar(n % 10)];
      assert s[..|s| - 1] == high;
      s
  }

  /** `Int32.ToString()`: a '-' for negative values, then the digits. */
  function IntToString(n: int): string {
    if n < 0 then "-" + NatToString(-n) else NatToString(n)
  }

  /** The two-digit, zero-padded rendering of the format specifiers `mm` and `ss`. */
  function TwoDigits(n: nat): (s: string)
    requires n < 100
    ensures |s| == 2 && AllDigits(s) && DigitsValue(s) == n
  {
    var s := [DigitChar(n / 10), DigitChar(n % 10)];
    assert s[..1] == [DigitChar(n / 10)];
    assert [DigitChar(n / 10)][..0] == [];
    assert DigitsValue(s[..1]) == n / 10;
    assert DigitsValue(s) == (n / 10) * 10 + n % 10;
    s
  }

  /** A non-empty string of digits whose value fits in 32 bits parses to that value. */
  lemma ParseDigits(s: string)
    requires |s| >= 1 && AllDigits(s) && DigitsValue(s) <= Int32Max
    ensures ParseInt(s) == Some(DigitsValue(s) as int)
  {
    assert IsDigit(s[0]);
  }

  /** Parsing the rendering of any 32-bit integer gives the integer back. */
  lemma ParseIntToString(n: int)
    requires InInt32(n)
    ensures ParseInt(IntToString(n)) == Some(n)
  {
    if n < 0 {
      var s := IntToString(n);
      assert s[1..] == NatToString(-n);
    } else {
      ParseDigits(NatToString(n));
    }
  }

  /** What `int.Parse` accepts at all: a non-empty string that is, after
      one optional leading sign, a non-empty run of decimal digits. */
  lemma ParseIntAccepts(s: string)
    ensures ParseInt(s).Some? ==>
              && |s| > 0
              && var digits := if s[0] == '-' || s[0] == '+' then s[1..] else s;
                 digits != [] && AllDigits(digits)
  {
  }

  /** The value of an unsigned, '+'-signed or '-'-signed numeral, leading
      zeros included; a numeral outside the 32-bit range is rejected. */
  lemma ParseIntSigned(d: string)
    requires |d| >= 1 && AllDigits(d)
    ensures ParseInt(d) == if DigitsValue(d) <= Int32Max then Some(DigitsValue(d) as int) else None
    ensures ParseInt("+" + d) == if DigitsValue(d) <= Int32Max then Some(DigitsValue(d) as int) else None
    ensures ParseInt("-" + d) == if -(DigitsValue(d) as int) >= Int32Min then Some(-(DigitsValue(d) as int)) else None
  {
    assert IsDigit(d[0]);
    assert ("+" + d)[1..] == d;
    SignedNumeral("+" + d);
    assert ("-" + d)[1..] == d;
    SignedNumeral("-" + d);
  }

  /** A sign followed by digits is read as that sign and those digits. */
  lemma SignedNumeral(s: string)
    requires |s| >= 2 && (s[0] == '+' || s[0] == '-') && AllDigits(s[1..])
    ensures var v := if s[0] == '-' then -(DigitsValue(s[1..]) as int) else DigitsValue(s[1..]) as int;
      ParseInt(s) == if InInt32(v) then Some(v) else None
  {
  }

  /** Non-numerals are rejected. */
  lemma ParseIntRejections()
    ensures ParseInt("1a").None? && ParseInt("").None? && ParseInt("+").None? && ParseInt("-").None?
  {
    assert !IsDigit("1a"[1]);
  }

  /** A sign and leading zeros are read as .NET reads them. */
  lemma ParseIntSignedExamples()
    ensures ParseInt("-05") == Some(-5) && ParseInt("+7") == Some(7)
  {
    ParseIntSigned("05");
    assert "-" + "05" == "-05";
    assert DigitsValue("05") == 5 by {
      assert "05"[..1] == "0";
      assert "0"[..0] == [];
    }
    ParseIntSigned("7");
    assert "+" + "7" == "+7";
    assert "7"[..0] == [];
  }
}
