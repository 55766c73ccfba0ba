/** The C library conversions the server relies on, over `seq<char>`:
    the `%ld` / `%d` conversions of `sscanf` (and `atoi`, which reads the same
    syntax), the decimal rendering of `%ld` / `%d`, the `strcspn(buf, "\r\n")`
    line cut, and the sign test on an `atof` price. Integer width (overflow of
    `long` / `int`) is not modelled: integers are unbounded. */
module Scan {
  import opened Wrappers

  /** `isspace` in the C locale. */
  predicate IsSpace(c: char) {
    c == ' ' || c == '\t' || c == '\n' || c == '\U{B}' || c == '\U{C}' || c == '\r'
  }

  predicate IsDigit(c: char) {
    '0' <= c <= '9'
  }

  predicate AllDigits(s: string) {
    forall i :: 0 <= i < |s| ==> IsDigit(s[i])
  }

  /** A character at which a numeric conversion stops without having begun
      or continued: not blank, not a digit, not a sign. A comma is one. */
  predicate IsStop(c: char) {
    !IsSpace(c) && !IsDigit(c) && c != '+' && c != '-'
  }

  /** The value of a digit character (0 for any other character). */
  function DigitValue(c: char): nat {
    if IsDigit(c) then (c as int) - ('0' as int) else 0
  }

  function DigitChar(d: nat): (c: char)
    requires d < 10
    ensures IsDigit(c) && DigitValue(c) == d
  {
    ('0' as int + d) as char
  }

  /** Length of the longest blank prefix of `s`. */
  function SpaceRun(s: string): (n: nat)
    ensures n <= |s|
  {
    if |s| > 0 && IsSpace(s[0]) then 1 + SpaceRun(s[1..]) else 0
  }

  /** `SpaceRun` is the longest blank prefix: blanks up to it, none at it. */
  lemma {:induction false} SpaceRunSpec(s: string)
    ensures forall i :: 0 <= i < SpaceRun(s) ==> IsSpace(s[i])
    ensures SpaceRun(s) < |s| ==> !IsSpace(s[SpaceRun(s)])
  {
    if |s| > 0 && IsSpace(s[0]) {
      SpaceRunSpec(s[1..]);
    }
  }

  /** Length of the longest digit prefix of `s`. */
  function DigitRun(s: string): (n: nat)
    ensures n <= |s|
  {
    if |s| > 0 && IsDigit(s[0]) then 1 + DigitRun(s[1..]) else 0
  }

  /** `DigitRun` is the longest digit prefix: digits up to it, none at it. */
  lemma {:induction false} DigitRunSpec(s: string)
    ensures forall i :: 0 <= i < DigitRun(s) ==> IsDigit(s[i])
    ensures DigitRun(s) < |s| ==> !IsDigit(s[DigitRun(s)])
  {
    if |s| > 0 && IsDigit(s[0]) {
      DigitRunSpec(s[1..]);
    }
  }

  /** Whether `x` is what is left of `s` once some prefix is consumed. */
  predicate IsSuffix(x: string, s: string) {
    |x| <= |s| && x == s[|s| - |x|..]
  }

  /** A text that starts with a non-blank has no blanks to skip. */
  lemma SkipSpacesNone(s: string)
    requires |s| > 0 && !IsSpace(s[0])
    ensures SkipSpaces(s) == s
  {
    SpaceRunUnique(s, 0);
  }

  /** `s` without its leading blanks. */
  function SkipSpaces(s: string): (r: string)
    ensures IsSuffix(r, s)
    ensures forall i :: 0 <= i < |s| - |r| ==> IsSpace(s[i])
    ensures |r| > 0 ==> !IsSpace(r[0])
  {
    SpaceRunSpec(s);
    s[SpaceRun(s)..]
  }

  /** Value of a string of decimal digits, most significant first. */
  function DigitsValue(d: string): nat {
    if |d| == 0 then 0 else DigitsValue(d[..|d| - 1]) * 10 + DigitValue(d[|d| - 1])
  }

  /** A successful conversion: the value read and the input left after it. */
  datatype Parsed = Parsed(value: int, rest: string)

  predicate IsMinus(t: string) {
    |t| > 0 && t[0] == '-'
  }

  /** `t` without its one leading sign, if it has one. */
  function StripSign(t: string): string {
    if |t| > 0 && (t[0] == '-' || t[0] == '+') then t[1..] else t
  }

  /** One base-10 `%ld` (or `%d`) conversion as `sscanf` performs it: leading
      blanks are skipped, one optional sign is read, then at least one digit.
      `None` is a matching failure. */
  function ParseLong(s: string): (r: Option<Parsed>)
    ensures r.Some? ==> |r.value.rest| < |s| && IsSuffix(r.value.rest, s)
    ensures r.Some? ==> IsDigit(s[|s| - |r.value.rest| - 1])
    ensures r.Some? && |r.value.rest| > 0 ==> !IsDigit(r.value.rest[0])
  {
    var t := SkipSpaces(s);
    var u := StripSign(t);
    var k := DigitRun(u);
    if k == 0 then None
    else
      DigitRunSpec(u);
      var m: int := DigitsValue(u[..k]);
      Some(Parsed(if IsMinus(t) then -m else m, u[k..]))
  }

  /** The value a conversion yields, when it succeeds. */
  function ParseValue(s: string): Option<int> {
    match ParseLong(s)
    case None => None
    case Some(p) => Some(p.value)
  }

  /** `atoi`: the same syntax as `%ld`, with 0 when no digit is found. The
      result is negative exactly when a minus sign follows the blanks and a
      nonzero digit follows the sign, which is the test the quantity checks
      rely on. */
  function Atoi(s: string): (r: int)
    ensures ParseValue(s).None? ==> r == 0
    ensures var u := StripSign(SkipSpaces(s));
            r < 0 <==> IsMinus(SkipSpaces(s)) && HasNonzeroDigit(u[..DigitRun(u)])
  {
    var u := StripSign(SkipSpaces(s));
    DigitRunSpec(u);
    assert AllDigits(u[..DigitRun(u)]);
    DigitsValuePositive(u[..DigitRun(u)]);
    match ParseLong(s)
    case None => 0
    case Some(p) => p.value
  }

  /** Decimal digits of a natural number, without leading zeros. */
  function NatToString(n: nat): (s: string)
    ensures |s| > 0 && AllDigits(s)
  {
    if n < 10 then [DigitChar(n)] else NatToString(n / 10) + [DigitChar(n % 10)]
  }

  /** The text `printf("%ld", n)` writes. */
  function IntToString(n: int): string {
    if n < 0 then "-" + NatToString(-n) else NatToString(n)
  }

  /** `buf[strcspn(buf, "\r\n")] = 0`: the text before the first line end. */
  function CutLine(s: string): (r: string)
    ensures r <= s
    ensures forall i :: 0 <= i < |r| ==> r[i] != '\r' && r[i] != '\n'
    ensures |r| < |s| ==> s[|r|] == '\r' || s[|r|] == '\n'
  {
    if |s| == 0 || s[0] == '\r' || s[0] == '\n' then [] else [s[0]] + CutLine(s[1..])
  }

  /** The `%[^\n]` conversion: the text before the first line feed. */
  function UpToNewline(s: string): (r: string)
    ensures r <= s
    ensures '\n' !in r
    ensures |r| < |s| ==> s[|r|] == '\n'
  {
    if |s| == 0 || s[0] == '\n' then [] else [s[0]] + UpToNewline(s[1..])
  }

  /** A text without a line feed is read whole. */
  lemma {:induction false} UpToNewlineWhole(s: string)
    requires '\n' !in s
    ensures UpToNewline(s) == s
  {
    if |s| > 0 {
      assert '\n' !in s[1..] by {
        forall i | 0 <= i < |s[1..]| ensures s[1..][i] != '\n' {
          assert s[1..][i] == s[i + 1];
        }
      }
      UpToNewlineWhole(s[1..]);
    }
  }

  /** Whether some digit of `d` is not zero. */
  predicate HasNonzeroDigit(d: string) {
    exists i :: 0 <= i < |d| && IsDigit(d[i]) && d[i] != '0'
  }

  /** Whether `atof(s) < 0.0` for a price written in plain decimal notation:
      after the blanks comes a minus sign, then a mantissa `digits[.digits]`
      with a nonzero digit (so "-0.00" is not negative). */
  function PriceNegative(s: string): (r: bool)
    ensures r ==> |SkipSpaces(s)| > 1 && SkipSpaces(s)[0] == '-'
    ensures r ==> exists i :: 0 <= i < |s| && IsDigit(s[i]) && s[i] != '0'
  {
    var t := SkipSpaces(s);
    if |t| == 0 || t[0] != '-' then false
    else
      var u := t[1..];
      var k := DigitRun(u);
      var frac := if k < |u| && u[k] == '.' then u[k + 1..][..DigitRun(u[k + 1..])] else [];
      HasNonzeroDigit(u[..k]) || HasNonzeroDigit(frac)
  }

  // ---------------------------------------------------------------------
  // Round trip between %ld output and %ld input

  lemma {:induction false} NatToStringValue(n: nat)
    ensures DigitsValue(NatToString(n)) == n
  {
    if n >= 10 {
      var d := NatToString(n);
      assert d[..|d| - 1] == NatToString(n / 10);
      NatToStringValue(n / 10);
    }
  }

  /** A maximal digit run followed by a non-digit is read exactly. */
  lemma DigitRunOfDigits(d: string, rest: string)
    requires AllDigits(d)
    requires rest == [] || !IsDigit(rest[0])
    ensures DigitRun(d + rest) == |d|
  {
    assert forall i :: 0 <= i < |d| ==> IsDigit((d + rest)[i]) by {
      forall i | 0 <= i < |d| ensures IsDigit((d + rest)[i]) {
        assert (d + rest)[i] == d[i];
      }
    }
    DigitRunUnique(d + rest, |d|);
  }

  /** How `ParseLong` reads a text whose blanks, sign and digits are known. */
  lemma ParseLongSteps(s: string, t: string, u: string, k: nat)
    requires SkipSpaces(s) == t && StripSign(t) == u && DigitRun(u) == k && k > 0
    ensures ParseLong(s) == Some(Parsed(if IsMinus(t) then -(DigitsValue(u[..k]) as int) else DigitsValue(u[..k]), u[k..]))
  {
    hide SkipSpaces, StripSign, DigitRun, DigitsValue, IsSuffix;
  }

  /** `ParseLong` fails when no digit follows the blanks and the sign. */
  lemma ParseLongNoDigits(s: string, t: string, u: string)
    requires SkipSpaces(s) == t && StripSign(t) == u && DigitRun(u) == 0
    ensures ParseLong(s) == None
  {
    hide SkipSpaces, StripSign, DigitRun, DigitsValue, IsSuffix;
  }

  /** What `%ld` prints has no leading blank and at most a minus sign in
      front of the digits of the magnitude. */
  lemma PrintedShape(n: int, rest: string)
    ensures var s := IntToString(n) + rest;
            SkipSpaces(s) == s && (IsMinus(s) <==> n < 0)
            && StripSign(s) == NatToString(if n < 0 then -n else n) + rest
  {
    hide ParseLong, ParseValue, Atoi, IsSuffix, SkipSpaces, PriceNegative, HasNonzeroDigit, DigitRun, DigitsValue;
    var d := NatToString(if n < 0 then -n else n);
    assert IntToString(n) == if n < 0 then "-" + d else d;
    assert AllDigits(d) && d[0] != '-' && d[0] != '+' && !IsSpace(d[0]);
    hide IntToString, NatToString;
    var s := IntToString(n) + rest;
    assert !IsSpace(s[0]);
    SkipSpacesNone(s);
    if n < 0 {
      assert s[1..] == d + rest;
    }
  }

  /** Reading back what `%ld` printed yields the same number, and the
      conversion stops right after it. */
  lemma ParseLongOfIntToString(n: int, rest: string)
    requires rest == [] || !IsDigit(rest[0])
    ensures ParseLong(IntToString(n) + rest) == Some(Parsed(n, rest))
  {
    hide ParseLong, ParseValue, Atoi, IsSuffix, SkipSpaces, PriceNegative, HasNonzeroDigit, StripSign, IsMinus;
    var m: nat := if n < 0 then -n else n;
    var d := NatToString(m);
    PrintedShape(n, rest);
    NatToStringValue(m);
    DigitRunOfDigits(d, rest);
    hide IntToString, NatToString, DigitsValue, DigitRun;
    var s := IntToString(n) + rest;
    var u := d + rest;
    assert u[..|d|] == d && u[|d|..] == rest;
    ParseLongSteps(s, s, u, |d|);
  }

  /** A string of digits has a positive value exactly when one of its digits
      is not zero. */
  lemma {:induction false} DigitsValuePositive(d: string)
    requires AllDigits(d)
    ensures DigitsValue(d) > 0 <==> HasNonzeroDigit(d)
  {
    if |d| > 0 {
      var p := d[..|d| - 1];
      assert AllDigits(p) by {
        forall i | 0 <= i < |p| ensures IsDigit(p[i]) {
          assert p[i] == d[i];
        }
      }
      DigitsValuePositive(p);
      assert forall i :: 0 <= i < |p| ==> p[i] == d[i];
    }
  }

  /** A printed integer counts as a negative price exactly when the integer
      is negative. */
  lemma PriceNegativeOfInt(n: int)
    ensures PriceNegative(IntToString(n)) <==> n < 0
  {
    var m: nat := if n < 0 then -n else n;
    var d := NatToString(m);
    assert AllDigits(d) && !IsSpace(d[0]) && d[0] != '-';
    var s := IntToString(n);
    assert s == if n < 0 then "-" + d else d;
    SpaceRunUnique(s, 0);
    assert SkipSpaces(s) == s;
    if n < 0 {
      assert s[1..] == d;
      DigitRunOfDigits(d, []);
      assert d + [] == d;
      assert d[..|d|] == d;
      NatToStringValue(m);
      DigitsValuePositive(d);
    }
  }

  /** One blank in front is skipped with the others. */
  lemma SkipSpacesBlank(x: string)
    ensures SkipSpaces(" " + x) == SkipSpaces(x)
  {
    assert (" " + x)[1..] == x;
  }

  /** One blank in front does not change what a conversion reads. */
  lemma ParseLongSkipsBlank(x: string)
    ensures ParseLong(" " + x) == ParseLong(x)
  {
    hide Atoi, PriceNegative, HasNonzeroDigit, IsMinus, IntToString, NatToString, DigitsValue,
      ParseLong, SkipSpaces, StripSign, DigitRun, IsSuffix;
    SkipSpacesBlank(x);
    var t := SkipSpaces(x);
    var u := StripSign(t);
    if DigitRun(u) > 0 {
      ParseLongSteps(x, t, u, DigitRun(u));
      ParseLongSteps(" " + x, t, u, DigitRun(u));
    } else {
      ParseLongNoDigits(x, t, u);
      ParseLongNoDigits(" " + x, t, u);
    }
  }

  /** A suffix of a suffix of `a` is a suffix of `a`. */
  lemma SuffixOfSuffix(a: string, b: string, c: string)
    requires IsSuffix(b, a) && IsSuffix(c, b)
    ensures IsSuffix(c, a)
  {
  }

  /** `atoi` reads back what `%d` printed. */
  lemma AtoiOfIntToString(n: int)
    ensures Atoi(IntToString(n)) == n
  {
    hide SkipSpaces, StripSign, DigitRun, HasNonzeroDigit, IntToString;
    ParseLongOfIntToString(n, []);
    assert IntToString(n) + [] == IntToString(n);
  }

  lemma ParseValueOfIntToString(n: int, rest: string)
    requires rest == [] || !IsDigit(rest[0])
    ensures ParseValue(IntToString(n) + rest) == Some(n)
  {
    ParseLongOfIntToString(n, rest);
  }

  // ---------------------------------------------------------------------
  // A conversion does not look past the first stop character

  lemma SpaceRunUnique(s: string, n: nat)
    requires n <= |s|
    requires forall i :: 0 <= i < n ==> IsSpace(s[i])
    requires n < |s| ==> !IsSpace(s[n])
    ensures SpaceRun(s) == n
  {
    SpaceRunSpec(s);
  }

  lemma DigitRunUnique(s: string, n: nat)
    requires n <= |s|
    requires forall i :: 0 <= i < n ==> IsDigit(s[i])
    requires n < |s| ==> !IsDigit(s[n])
    ensures DigitRun(s) == n
  {
    DigitRunSpec(s);
  }

  lemma SpaceRunAppend(a: string, b: string)
    requires b == [] || !IsSpace(b[0])
    ensures SpaceRun(a + b) == SpaceRun(a)
  {
    SpaceRunSpec(a);
    var n := SpaceRun(a);
    assert forall i :: 0 <= i < n ==> IsSpace((a + b)[i]) by {
      forall i | 0 <= i < n ensures IsSpace((a + b)[i]) {
        assert (a + b)[i] == a[i];
      }
    }
    assert n < |a + b| ==> (a + b)[n] == if n < |a| then a[n] else b[0];
    SpaceRunUnique(a + b, n);
  }

  lemma DigitRunAppend(a: string, b: string)
    requires b == [] || !IsDigit(b[0])
    ensures DigitRun(a + b) == DigitRun(a)
  {
    DigitRunSpec(a);
    var n := DigitRun(a);
    assert forall i :: 0 <= i < n ==> IsDigit((a + b)[i]) by {
      forall i | 0 <= i < n ensures IsDigit((a + b)[i]) {
        assert (a + b)[i] == a[i];
      }
    }
    assert n < |a + b| ==> (a + b)[n] == if n < |a| then a[n] else b[0];
    DigitRunUnique(a + b, n);
  }

  lemma SkipSpacesAppend(a: string, b: string)
    requires b == [] || !IsSpace(b[0])
    ensures SkipSpaces(a + b) == SkipSpaces(a) + b
  {
    SpaceRunAppend(a, b);
    assert (a + b)[SpaceRun(a)..] == a[SpaceRun(a)..] + b;
  }

  lemma StripSignAppend(t: string, b: string)
    requires b == [] || IsStop(b[0])
    ensures StripSign(t + b) == StripSign(t) + b
    ensures IsMinus(t + b) == IsMinus(t)
  {
    if |t| > 0 {
      assert (t + b)[0] == t[0];
      if t[0] == '-' || t[0] == '+' {
        assert (t + b)[1..] == t[1..] + b;
      }
    } else {
      assert t + b == b;
    }
  }

  /** Appending text that starts with a stop character (a comma, say) does
      not change the value a conversion reads. */
  lemma ParseValueStops(a: string, b: string)
    requires b == [] || IsStop(b[0])
    ensures ParseValue(a + b) == ParseValue(a)
  {
    hide Atoi, PriceNegative, HasNonzeroDigit, IsMinus, IntToString, NatToString;
    SkipSpacesAppend(a, b);
    var t := SkipSpaces(a);
    StripSignAppend(t, b);
    var u := StripSign(t);
    DigitRunAppend(u, b);
    var k := DigitRun(u);
    hide ParseLong, SkipSpaces, StripSign, DigitRun, DigitsValue, IsSuffix;
    if k > 0 {
      assert (u + b)[..k] == u[..k];
      ParseLongSteps(a, t, u, k);
      ParseLongSteps(a + b, t + b, u + b, k);
    } else {
      ParseLongNoDigits(a, t, u);
      ParseLongNoDigits(a + b, t + b, u + b);
    }
  }
}
