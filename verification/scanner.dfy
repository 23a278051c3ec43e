/**
 * The coordinate-line scanner of `load_data`: `iss >> lat && iss.ignore(3) && iss >> lon`.
 *
 * `ReadDouble` is the stream extraction of a `double` in the classic "C" locale:
 * leading white space is skipped, then the longest prefix of the form
 * `[+-] digits [. digits] [(e|E) [+-] digits]` is consumed, with at least one
 * mantissa digit. An exponent marker that is not followed by digits makes the
 * extraction fail (the characters are consumed; there is no backtracking).
 * Values are exact reals; rounding to the nearest double is not modelled.
 */
module NumberScanner {
  import opened Wrappers
  import CityStore

  /** The C `isspace` set. */
  predicate IsSpace(c: char)
  {
    c == ' ' || c == '\t' || c == '\n' || c == '\U{B}' || c == '\U{C}' || c == '\r'
  }

  predicate IsDigit(c: char)
  {
    '0' <= c <= '9'
  }

  predicate AllDigits(s: string)
  {
    forall i :: 0 <= i < |s| ==> IsDigit(s[i])
  }

  /** What is left after the leading white space of `s`. */
  function SkipSpaces(s: string): (t: string)
    ensures |t| <= |s| && t == s[|s| - |t|..]
    ensures |t| == 0 || !IsSpace(t[0])
  {
    if |s| > 0 && IsSpace(s[0]) then SkipSpaces(s[1..]) else s
  }

  /** Length of the longest all-digit prefix of `s`. */
  function DigitRun(s: string): (k: nat)
    ensures k <= |s|
    ensures forall i :: 0 <= i < k ==> IsDigit(s[i])
    ensures k == |s| || !IsDigit(s[k])
  {
    if |s| > 0 && IsDigit(s[0]) then 1 + DigitRun(s[1..]) else 0
  }

  /** The natural number a string of decimal digits denotes. */
  function DigitsValue(ds: string): nat
    requires AllDigits(ds)
  {
    if |ds| == 0 then 0
    else DigitsValue(ds[..|ds| - 1]) * 10 + (ds[|ds| - 1] as int - '0' as int)
  }

  function Pow10(n: nat): (p: nat)
    ensures p >= 1
  {
    if n == 0 then 1 else 10 * Pow10(n - 1)
  }

  /** `m` times ten to the power `e` (negative when `negative`). */
  function Scale(m: real, negative: bool, e: nat): real
  {
    if negative then m / Pow10(e) as real else m * Pow10(e) as real
  }

  function Signed(negative: bool, x: real): real
  {
    if negative then -x else x
  }

  /** The value of the digit string `ds` with its last `scale` digits after the decimal point. */
  function Fraction(ds: string, scale: nat): real
    requires AllDigits(ds)
  {
    DigitsValue(ds) as real / Pow10(scale) as real
  }

  /** Whether a character can continue a number that has a mantissa digit. */
  predicate ContinuesNumber(c: char)
  {
    IsDigit(c) || c == '.' || c == 'e' || c == 'E'
  }

  /** `rest` is what is left of `s` after a non-empty prefix has been consumed. */
  predicate Consumed(s: string, rest: string)
  {
    |rest| < |s| && rest == s[|s| - |rest|..]
  }

  /** The mantissa `digits [. digits]` with at least one digit: its value and the rest. */
  function ReadMantissa(u: string): (r: Option<(real, string)>)
    ensures r.Some? ==> Consumed(u, r.value.1)
    ensures (|u| == 0 || !(IsDigit(u[0]) || u[0] == '.')) ==> r.None?
  {
    var w := DigitRun(u);
    var v := u[w..];
    if |v| > 0 && v[0] == '.' then
      var f := DigitRun(v[1..]);
      if w + f == 0 then None
      else Some((Fraction(u[..w] + v[1..][..f], f), v[1..][f..]))
    else if w == 0 then None
    else Some((DigitsValue(u[..w]) as real, v))
  }

  /** The exponent part `(e|E) [+-] digits` of a number; no digits means failure. */
  function ReadExponent(x: string): (r: Option<(bool, nat, string)>)
    requires |x| > 0 && (x[0] == 'e' || x[0] == 'E')
    ensures r.Some? ==> Consumed(x, r.value.2)
  {
    var y := x[1..];
    var negative := |y| > 0 && y[0] == '-';
    var z := if |y| > 0 && (y[0] == '+' || y[0] == '-') then y[1..] else y;
    var d := DigitRun(z);
    if d == 0 then None else Some((negative, DigitsValue(z[..d]), z[d..]))
  }

  /** An unsigned number: mantissa and optional exponent. */
  function ReadUnsigned(u: string): (r: Option<(real, string)>)
    ensures r.Some? ==> Consumed(u, r.value.1)
    ensures (|u| == 0 || !(IsDigit(u[0]) || u[0] == '.')) ==> r.None?
  {
    match ReadMantissa(u)
    case None => None
    case Some((m, x)) =>
      if |x| > 0 && (x[0] == 'e' || x[0] == 'E') then
        match ReadExponent(x)
        case None => None
        case Some((negative, e, rest)) => Some((Scale(m, negative, e), rest))
      else Some((m, x))
  }

  /**
   * `stream >> x` for a `double x`: the value read and the unread rest of the
   * input, or `None` when the stream's failbit would be set.
   */
  function ReadDouble(s: string): (r: Option<(real, string)>)
    ensures r.Some? ==> Consumed(s, r.value.1)
    ensures var t := SkipSpaces(s);
      (|t| == 0 || !(IsDigit(t[0]) || t[0] == '+' || t[0] == '-' || t[0] == '.')) ==> r.None?
  {
    var t := SkipSpaces(s);
    if |t| > 0 && (t[0] == '+' || t[0] == '-') then
      match ReadUnsigned(t[1..])
      case None => None
      case Some((v, rest)) => Some((Signed(t[0] == '-', v), rest))
    else ReadUnsigned(t)
  }

  /** The number of bytes `c` takes in UTF-8, the encoding of the data file. */
  function Utf8Length(c: char): (n: nat)
    ensures 1 <= n <= 4
  {
    if c < '\U{80}' then 1 else if c < '\U{800}' then 2 else if c < '\U{10000}' then 3 else 4
  }

  /** The number of bytes `s` takes in UTF-8. */
  function Utf8Size(s: string): nat
  {
    if |s| == 0 then 0 else Utf8Length(s[0]) + Utf8Size(s[1..])
  }

  /**
   * `ignore(n)` on the UTF-8 bytes of `s`, as seen by the next extraction: the
   * characters left after exactly `n` bytes. `None` when the input ends first
   * (the next extraction meets end-of-file) or when the `n`-th byte falls
   * inside a character (the next extraction meets a continuation byte, which
   * neither white space nor a number starts with): either way the next
   * extraction fails.
   */
  function IgnoreBytes(s: string, n: nat): (r: Option<string>)
    ensures r.Some? ==> |r.value| <= |s| && (n > 0 ==> |r.value| < |s|)
  {
    if n == 0 then Some(s)
    else if |s| == 0 || Utf8Length(s[0]) > n then None
    else IgnoreBytes(s[1..], n - Utf8Length(s[0]))
  }

  /** What a successful skip leaves is a suffix, and the part skipped takes exactly `n` bytes. */
  lemma {:induction false} IgnoreBytesSkips(s: string, n: nat)
    requires IgnoreBytes(s, n).Some?
    ensures var t := IgnoreBytes(s, n).value;
      t == s[|s| - |t|..] && Utf8Size(s[..|s| - |t|]) == n
  {
    if n > 0 {
      var m := n - Utf8Length(s[0]);
      IgnoreBytesSkips(s[1..], m);
      var t := IgnoreBytes(s, n).value;
      var k := |s| - |t|;
      assert s[1..][|s[1..]| - |t|..] == s[k..];
      assert s[..k][1..] == s[1..][..k - 1];
    } else {
      assert s[..0] == [];
    }
  }

  /**
   * `iss >> lat && iss.ignore(3) && iss >> lon` on one coordinate line. Exactly
   * three bytes after the first number are skipped, whatever they are; anything
   * after the second number is left unread.
   */
  function ParseCoordinates(line: string): (r: Option<CityStore.Coordinates>)
    ensures r.Some? ==> |line| >= 3
  {
    match ReadDouble(line)
    case None => None
    case Some((lat, rest)) =>
      match IgnoreBytes(rest, 3)
      case None => None
      case Some(after) =>
        match ReadDouble(after)
        case None => None
        case Some((lon, _)) => Some(CityStore.Coordinates(lat, lon))
  }

  /** A plain decimal literal `[-] digits [. digits]`, as a data file writes it. */
  datatype Decimal = Decimal(negative: bool, whole: string, frac: string)
  {
    predicate WellFormed()
    {
      |whole| > 0 && AllDigits(whole) && AllDigits(frac)
    }

    function Text(): string
    {
      (if negative then "-" else "") + whole + (if |frac| == 0 then "" else "." + frac)
    }

    /** The number the literal denotes. */
    function Value(): real
      requires WellFormed()
    {
      Signed(negative, Fraction(whole + frac, |frac|))
    }
  }

  lemma {:induction false} DigitRunOf(ds: string, tail: string)
    requires AllDigits(ds)
    requires |tail| == 0 || !IsDigit(tail[0])
    ensures DigitRun(ds + tail) == |ds|
  {
    if |ds| > 0 {
      DigitRunOf(ds[1..], tail);
      assert (ds + tail)[1..] == ds[1..] + tail;
    }
  }

  /** The unsigned part of a literal: `whole [. frac]`. */
  function MantissaText(whole: string, frac: string): string
  {
    whole + (if |frac| == 0 then "" else "." + frac)
  }

  lemma ReadMantissaWhole(whole: string, tail: string)
    requires |whole| > 0 && AllDigits(whole)
    requires |tail| == 0 || !ContinuesNumber(tail[0])
    ensures var r := ReadMantissa(whole + tail);
      r.Some? && r.value.0 == DigitsValue(whole) as real && r.value.1 == tail
  {
    var u := whole + tail;
    DigitRunOf(whole, tail);
    assert u[..|whole|] == whole && u[|whole|..] == tail;
  }

  lemma ReadMantissaFraction(whole: string, frac: string, tail: string)
    requires |whole| > 0 && AllDigits(whole) && |frac| > 0 && AllDigits(frac)
    requires |tail| == 0 || !IsDigit(tail[0])
    ensures var r := ReadMantissa(whole + ("." + frac) + tail);
      && r.Some?
      && r.value.0 == Fraction(whole + frac, |frac|)
      && r.value.1 == tail
  {
    var after := "." + frac + tail;
    var u := whole + after;
    assert whole + ("." + frac) + tail == u;
    DigitRunOf(whole, after);
    assert u[..|whole|] == whole && u[|whole|..] == after;
    var v := after[1..];
    assert v == frac + tail;
    DigitRunOf(frac, tail);
    assert v[..|frac|] == frac && v[|frac|..] == tail;
    assert u[..|whole|] + v[..|frac|] == whole + frac;
  }

  lemma ReadMantissaText(whole: string, frac: string, tail: string)
    requires |whole| > 0 && AllDigits(whole) && AllDigits(frac)
    requires |tail| == 0 || !ContinuesNumber(tail[0])
    ensures var r := ReadMantissa(MantissaText(whole, frac) + tail);
      && r.Some?
      && r.value.0 == Fraction(whole + frac, |frac|)
      && r.value.1 == tail
  {
    if |frac| == 0 {
      assert MantissaText(whole, frac) == whole;
      assert whole + frac == whole;
      ReadMantissaWhole(whole, tail);
    } else {
      assert MantissaText(whole, frac) == whole + ("." + frac);
      ReadMantissaFraction(whole, frac, tail);
    }
  }

  lemma ReadUnsignedText(whole: string, frac: string, tail: string)
    requires |whole| > 0 && AllDigits(whole) && AllDigits(frac)
    requires |tail| == 0 || !ContinuesNumber(tail[0])
    ensures var r := ReadUnsigned(MantissaText(whole, frac) + tail);
      && r.Some?
      && r.value.0 == Fraction(whole + frac, |frac|)
      && r.value.1 == tail
  {
    ReadMantissaText(whole, frac, tail);
  }

  lemma NoLeadingSpace(s: string)
    requires |s| > 0 && !IsSpace(s[0])
    ensures SkipSpaces(s) == s
  {
  }

  lemma ReadDoubleUnsigned(body: string)
    requires |body| > 0 && IsDigit(body[0])
    ensures ReadDouble(body) == ReadUnsigned(body)
  {
    NoLeadingSpace(body);
  }

  lemma ReadDoubleNegated(body: string)
    requires |body| > 0 && IsDigit(body[0])
    ensures ReadUnsigned(body).None? ==> ReadDouble("-" + body).None?
    ensures ReadUnsigned(body).Some? ==>
      && ReadDouble("-" + body).Some?
      && ReadDouble("-" + body).value.0 == -ReadUnsigned(body).value.0
      && ReadDouble("-" + body).value.1 == ReadUnsigned(body).value.1
  {
    var s := "-" + body;
    NoLeadingSpace(s);
    assert s[1..] == body;
  }

  lemma TextSplit(d: Decimal, tail: string)
    requires d.WellFormed()
    ensures var body := MantissaText(d.whole, d.frac) + tail;
      && IsDigit(body[0])
      && d.Text() + tail == (if d.negative then "-" + body else body)
  {
  }

  /** Reading back a written literal yields its value and leaves what follows it unread. */
  lemma ReadDoubleText(d: Decimal, tail: string)
    requires d.WellFormed()
    requires |tail| == 0 || !ContinuesNumber(tail[0])
    ensures var r := ReadDouble(d.Text() + tail);
      r.Some? && r.value.0 == d.Value() && r.value.1 == tail
  {
    ReadUnsignedText(d.whole, d.frac, tail);
    TextSplit(d, tail);
    if d.negative {
      ReadDoubleNegated(MantissaText(d.whole, d.frac) + tail);
    } else {
      ReadDoubleUnsigned(MantissaText(d.whole, d.frac) + tail);
    }
  }

  /** Skipping exactly the bytes of `sep` leaves what follows it. */
  lemma {:induction false} IgnoreExact(sep: string, rest: string, n: nat)
    requires Utf8Size(sep) == n
    ensures IgnoreBytes(sep + rest, n) == Some(rest)
  {
    if |sep| > 0 {
      assert (sep + rest)[0] == sep[0] && (sep + rest)[1..] == sep[1..] + rest;
      IgnoreExact(sep[1..], rest, n - Utf8Length(sep[0]));
    } else {
      assert sep + rest == rest;
    }
  }

  /** Input shorter than the skip runs out: the next extraction fails. */
  lemma {:induction false} IgnorePastEnd(s: string, n: nat)
    requires Utf8Size(s) < n
    ensures IgnoreBytes(s, n) == None
  {
    if |s| > 0 && Utf8Length(s[0]) <= n {
      IgnorePastEnd(s[1..], n - Utf8Length(s[0]));
    }
  }

  /** A skip ending inside the character `c` leaves a continuation byte: the next extraction fails. */
  lemma {:induction false} IgnoreInside(sep: string, c: char, rest: string, n: nat)
    requires Utf8Size(sep) < n < Utf8Size(sep) + Utf8Length(c)
    ensures IgnoreBytes(sep + [c] + rest, n) == None
  {
    var s := sep + [c] + rest;
    if |sep| > 0 {
      assert s[0] == sep[0] && s[1..] == sep[1..] + [c] + rest;
      IgnoreInside(sep[1..], c, rest, n - Utf8Length(sep[0]));
    } else {
      assert s[0] == c;
    }
  }

  /**
   * A coordinate line written as `lat`, a separator of three bytes, `lon`, then
   * any trailing text parses to exactly `(lat, lon)`: the first number is the
   * latitude and the trailing text is ignored.
   */
  lemma ParseCoordinatesText(lat: Decimal, sep: string, lon: Decimal, tail: string)
    requires lat.WellFormed() && lon.WellFormed()
    requires |sep| > 0 && Utf8Size(sep) == 3 && !ContinuesNumber(sep[0])
    requires |tail| == 0 || !ContinuesNumber(tail[0])
    ensures ParseCoordinates(lat.Text() + sep + lon.Text() + tail)
         == Some(CityStore.Coordinates(lat.Value(), lon.Value()))
  {
    var after := lon.Text() + tail;
    var line := lat.Text() + sep + lon.Text() + tail;
    Regroup(lat.Text(), sep, after);
    assert line == lat.Text() + sep + after;
    ReadDoubleText(lat, sep + after);
    IgnoreExact(sep, after, 3);
    ReadDoubleText(lon, tail);
    ParseCoordinatesOf(line, lat.Value(), sep + after, after, lon.Value());
  }

  lemma Regroup(a: string, sep: string, rest: string)
    requires |sep| > 0
    ensures a + sep + rest == a + (sep + rest)
    ensures (sep + rest)[0] == sep[0]
  {
  }

  lemma ParseCoordinatesOf(line: string, lat: real, rest: string, after: string, lon: real)
    requires ReadDouble(line) == Some((lat, rest))
    requires IgnoreBytes(rest, 3) == Some(after)
    requires ReadDouble(after).Some? && ReadDouble(after).value.0 == lon
    ensures ParseCoordinates(line) == Some(CityStore.Coordinates(lat, lon))
  {
  }

  /** A latitude followed by fewer than three bytes leaves nothing to skip into: rejected. */
  lemma RejectsShortSeparator(lat: Decimal, rest: string)
    requires lat.WellFormed()
    requires Utf8Size(rest) < 3 && (|rest| == 0 || !ContinuesNumber(rest[0]))
    ensures ParseCoordinates(lat.Text() + rest) == None
  {
    ReadDoubleText(lat, rest);
    IgnorePastEnd(rest, 3);
  }

  /** A skip of three bytes that ends inside a multi-byte character: rejected. */
  lemma RejectsSplitCharacter(lat: Decimal, sep: string, c: char, rest: string)
    requires lat.WellFormed()
    requires Utf8Size(sep) < 3 < Utf8Size(sep) + Utf8Length(c)
    requires !ContinuesNumber((sep + [c] + rest)[0])
    ensures ParseCoordinates(lat.Text() + (sep + [c] + rest)) == None
  {
    ReadDoubleText(lat, sep + [c] + rest);
    IgnoreInside(sep, c, rest, 3);
  }

  /** A latitude and a three-byte separator not followed by a number: rejected. */
  lemma RejectsMissingLongitude(lat: Decimal, sep: string, rest: string)
    requires lat.WellFormed()
    requires |sep| > 0 && Utf8Size(sep) == 3 && !ContinuesNumber(sep[0])
    requires var t := SkipSpaces(rest); |t| == 0 || !(IsDigit(t[0]) || t[0] == '+' || t[0] == '-' || t[0] == '.')
    ensures ParseCoordinates(lat.Text() + sep + rest) == None
  {
    Regroup(lat.Text(), sep, rest);
    ReadDoubleText(lat, sep + rest);
    IgnoreExact(sep, rest, 3);
  }

  /** A line whose first non-blank character cannot start a number: rejected. */
  lemma RejectsNonNumeric(line: string)
    requires var t := SkipSpaces(line); |t| == 0 || !(IsDigit(t[0]) || t[0] == '+' || t[0] == '-' || t[0] == '.')
    ensures ParseCoordinates(line) == None
  {
  }

  lemma SingleDigit(d: char)
    requires IsDigit(d)
    ensures Decimal(false, [d], "").WellFormed()
    ensures Decimal(false, [d], "").Text() == [d]
    ensures Decimal(false, [d], "").Value() == (d as int - '0' as int) as real
  {
    assert [d] + "" == [d];
    assert [d][..0] == [];
    assert DigitsValue([d]) == d as int - '0' as int;
    assert Fraction([d], 0) == DigitsValue([d]) as real / 1.0;
  }

  lemma NoTail(line: string)
    ensures line + "" == line
  {
  }

  /** The skip counts bytes, not characters: after `1`, the three bytes of `€` are skipped and `5` is read. */
  lemma EuroSeparator(sep: string)
    requires sep == "\U{20AC}"
    ensures ParseCoordinates("1" + sep + "5") == Some(CityStore.Coordinates(1.0, 5.0))
  {
    SingleDigit('1');
    SingleDigit('5');
    assert Utf8Size("\U{20AC}") == 3;
    ParseCoordinatesText(Decimal(false, "1", ""), sep, Decimal(false, "5", ""), "");
    NoTail("1" + sep + "5");
  }

  /** `é` (two bytes) and `1` make the three skipped bytes, so `2` is the longitude. */
  lemma AccentSeparator(sep: string)
    requires sep == "\U{E9}1"
    ensures ParseCoordinates("1" + sep + "2") == Some(CityStore.Coordinates(1.0, 2.0))
  {
    SingleDigit('1');
    SingleDigit('2');
    assert Utf8Size("\U{E9}1") == 3;
    ParseCoordinatesText(Decimal(false, "1", ""), sep, Decimal(false, "2", ""), "");
    NoTail("1" + sep + "2");
  }

  /** ` °` is three bytes, so the longitude would start at `,`: rejected. */
  lemma DegreeSeparator(sep: string, rest: string)
    requires sep == " \U{B0}" && rest == ",2"
    ensures ParseCoordinates("1" + sep + rest) == None
  {
    SingleDigit('1');
    assert Utf8Size(" \U{B0}") == 3;
    NoLeadingSpace(rest);
    RejectsMissingLongitude(Decimal(false, "1", ""), sep, rest);
  }

  /** After `1, ` the third skipped byte is the first byte of `€`: rejected, though `5` follows. */
  lemma SplitEuro(sep: string, c: char)
    requires sep == ", " && c == '\U{20AC}'
    ensures ParseCoordinates("1" + (sep + [c] + "5")) == None
  {
    SingleDigit('1');
    assert Utf8Size(", ") == 2;
    RejectsSplitCharacter(Decimal(false, "1", ""), sep, c, "5");
  }
}
