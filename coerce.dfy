/**
 * `as_float`: the coercion of a JSON value to a number that every loader
 * applies to the metric fields. Numbers pass through, strings are stripped,
 * lose their percent signs, take a comma as the decimal point and are then
 * read by Python's `float`; everything else, and every string `float`
 * rejects, gives `None`.
 */
module Coerce {
  import opened Wrappers
  import opened PyStr
  import opened Json

  /** A (possibly empty) run of ASCII digits. */
  predicate AllDigits(s: string) {
    forall i :: 0 <= i < |s| ==> IsDigit(s[i])
  }

  /** The number a run of ASCII digits denotes in base ten; 0 for no digits. */
  function DigitsValue(s: string): nat
    requires AllDigits(s)
  {
    if s == [] then 0
    else 10 * DigitsValue(s[..|s| - 1]) + (s[|s| - 1] as int - '0' as int)
  }

  function Pow10(n: nat): (p: nat)
    ensures p >= 1
  {
    if n == 0 then 1 else 10 * Pow10(n - 1)
  }

  /** `m` times ten to the power `e`. */
  function Scale(m: real, e: int): real
    decreases if e < 0 then -e else e
  {
    if e == 0 then m
    else if e > 0 then Scale(m, e - 1) * 10.0
    else Scale(m, e + 1) / 10.0
  }

  /** The longest prefix of ASCII digits and what follows it. */
  function SplitDigits(s: string): (r: (string, string))
    ensures AllDigits(r.0) && r.0 + r.1 == s
    ensures r.1 == [] || !IsDigit(r.1[0])
  {
    if s != [] && IsDigit(s[0]) then
      var (d, rest) := SplitDigits(s[1..]);
      assert [s[0]] + (d + rest) == s;
      ([s[0]] + d, rest)
    else ([], s)
  }

  /** The exponent that must end the text of a float: nothing at all
      (exponent 0), or `e` or `E`, an optional sign and at least one digit
      reaching the end. */
  function ParseExponent(x: string): (r: Option<int>)
    ensures x == [] ==> r == Some(0)
    ensures x != [] && r.Some? ==> x[0] == 'e' || x[0] == 'E'
  {
    if x == [] then Some(0)
    else if x[0] != 'e' && x[0] != 'E' then None
    else
      var y := x[1..];
      var neg := y != [] && y[0] == '-';
      var ds := if y != [] && (y[0] == '+' || y[0] == '-') then y[1..] else y;
      if ds != [] && AllDigits(ds) then
        var n := DigitsValue(ds) as int;
        Some(if neg then -n else n)
      else None
  }

  /** A float without sign: digits with at most one decimal point and at
      least one digit, then the exponent. */
  function ParseUnsigned(t: string): Option<real> {
    var (ip, rest) := SplitDigits(t);
    var (fp, tail) := if rest != [] && rest[0] == '.' then SplitDigits(rest[1..]) else ([], rest);
    ParseParts(ip, fp, tail)
  }

  /** The value of an integer part, a fraction part and an exponent text. */
  function ParseParts(ip: string, fp: string, tail: string): Option<real>
    requires AllDigits(ip) && AllDigits(fp)
  {
    if ip == [] && fp == [] then None
    else
      match ParseExponent(tail)
      case None => None
      case Some(e) =>
        assert AllDigits(ip + fp);
        Some(Scale(DigitsValue(ip + fp) as real, e - |fp|))
  }

  /** A float with an optional sign in front. */
  function ParseSigned(t: string): Option<real> {
    if t != [] && (t[0] == '+' || t[0] == '-') then
      match ParseUnsigned(t[1..])
      case None => None
      case Some(v) => Some(if t[0] == '-' then -v else v)
    else ParseUnsigned(t)
  }

  /** Python's `float(s)` on a string, read as an exact real: surrounding
      whitespace, an optional sign, ASCII digits with at most one decimal
      point and at least one digit, and an optional exponent. `None` stands
      for the `ValueError` of any other text. */
  function ParseFloat(s: string): Option<real> {
    ParseSigned(Strip(s))
  }

  /** The text `as_float` hands to `float`: percent signs removed, commas
      turned into points. */
  function Cleaned(t: string): (u: string)
    ensures '%' !in u && ',' !in u
  {
    ReplaceChar(RemoveChar(t, '%'), ',', '.')
  }

  /** `as_float(x)`. Booleans are Python integers, so they count as 1 and 0;
      lists and dicts make `float` raise, which gives `None`. */
  function AsFloat(x: Json): (r: Option<real>)
    ensures x.JNull? || x.JArray? || x.JObject? ==> r.None?
    ensures x.JInt? ==> r == Some(x.i as real)
    ensures x.JFloat? ==> r == Some(x.r)
    ensures x.JBool? ==> r == Some(if x.b then 1.0 else 0.0)
    ensures x.JString? && AllSpace(x.s) ==> r.None?
  {
    match x
    case JNull => None
    case JBool(b) => Some(if b then 1.0 else 0.0)
    case JInt(i) => Some(i as real)
    case JFloat(r) => Some(r)
    case JString(s) =>
      var t := Strip(s);
      if t == "" then None else ParseFloat(Cleaned(t))
    case JArray(_) => None
    case JObject(_) => None
  }

  // ---------------------------------------------------------------------------
  // Properties
  // ---------------------------------------------------------------------------

  /** Appending digits shifts the value of the digits before them. */
  lemma {:induction false} DigitsValueAppend(a: string, b: string)
    requires AllDigits(a) && AllDigits(b)
    ensures AllDigits(a + b)
    ensures DigitsValue(a + b) == DigitsValue(a) * Pow10(|b|) + DigitsValue(b)
  {
    if b != [] {
      var n := |b| - 1;
      var b' := b[..n];
      var d := b[n] as int - '0' as int;
      assert (a + b)[..|a + b| - 1] == a + b';
      assert (a + b)[|a + b| - 1] == b[n];
      DigitsValueAppend(a, b');
      assert DigitsValue(a + b) == 10 * DigitsValue(a + b') + d;
      ShiftStep(DigitsValue(a), Pow10(n), DigitsValue(b'), d);
    } else {
      assert a + b == a;
    }
  }

  lemma ShiftStep(x: int, p: int, y: int, d: int)
    ensures 10 * (x * p + y) + d == x * (10 * p) + (10 * y + d)
  {
  }

  /** The digits that start a string are exactly the run `SplitDigits`
      takes off. */
  lemma {:induction false} SplitDigitsOf(d: string, rest: string)
    requires AllDigits(d)
    requires rest == [] || !IsDigit(rest[0])
    ensures SplitDigits(d + rest) == (d, rest)
  {
    if d == [] {
      assert d + rest == rest;
    } else {
      assert (d + rest)[0] == d[0];
      assert (d + rest)[1..] == d[1..] + rest;
      SplitDigitsOf(d[1..], rest);
      assert [d[0]] + d[1..] == d;
    }
  }

  /** Text with no whitespace at its ends is read as it stands. */
  lemma ParseTrimmed(t: string)
    requires EdgeTrimmed(t)
    ensures ParseFloat(t) == ParseSigned(t)
  {
  }

  /** Text that does not start with a sign is read as unsigned. */
  lemma ParseNoSign(t: string)
    requires t == [] || (t[0] != '+' && t[0] != '-')
    ensures ParseSigned(t) == ParseUnsigned(t)
  {
  }

  lemma UnsignedNatural(a: string)
    requires a != [] && AllDigits(a)
    ensures ParseUnsigned(a) == Some(DigitsValue(a) as real)
  {
    assert a + [] == a;
    SplitDigitsOf(a, []);
  }

  /** A run of digits is read as the natural number it denotes. */
  lemma ParseNatural(a: string)
    requires a != [] && AllDigits(a)
    ensures ParseFloat(a) == Some(DigitsValue(a) as real)
  {
    assert !IsSpace(a[0]) && !IsSpace(a[|a| - 1]);
    ParseTrimmed(a);
    ParseNoSign(a);
    UnsignedNatural(a);
  }

  /** Scaling distributes over a sum. */
  lemma {:induction false} ScaleAdd(x: real, y: real, e: int)
    ensures Scale(x + y, e) == Scale(x, e) + Scale(y, e)
    decreases if e < 0 then -e else e
  {
    if e > 0 {
      ScaleAdd(x, y, e - 1);
    } else if e < 0 {
      ScaleAdd(x, y, e + 1);
    }
  }

  /** Scaling down by `n` places undoes a multiplication by ten to the
      power `n`. */
  lemma {:induction false} ScaleCancel(k: int, n: nat)
    ensures Scale((k * Pow10(n)) as real, -(n as int)) == k as real
    decreases n
  {
    if n > 0 {
      ScaleCancel(10 * k, n - 1);
      assert k * Pow10(n) == (10 * k) * Pow10(n - 1);
    }
  }

  /** The digits of the integer part followed by those of the fraction,
      scaled down by the length of the fraction, are the integer part plus
      the scaled-down fraction. */
  lemma DecimalValue(a: string, b: string)
    requires AllDigits(a) && AllDigits(b)
    ensures AllDigits(a + b)
    ensures Scale(DigitsValue(a + b) as real, -|b|) == DigitsValue(a) as real + Scale(DigitsValue(b) as real, -|b|)
  {
    DigitsValueAppend(a, b);
    var x := (DigitsValue(a) * Pow10(|b|)) as real;
    assert DigitsValue(a + b) as real == x + DigitsValue(b) as real;
    ScaleAdd(x, DigitsValue(b) as real, -|b|);
    ScaleCancel(DigitsValue(a), |b|);
  }

  lemma UnsignedDecimal(a: string, b: string)
    requires a != [] && AllDigits(a) && AllDigits(b)
    ensures AllDigits(a + b)
    ensures ParseUnsigned(a + "." + b) == Some(Scale(DigitsValue(a + b) as real, -|b|))
  {
    PointParts(a, b);
    PartsNoExponent(a, b);
  }

  /** Digit runs with no exponent after them are read as all the digits
      scaled down by the length of the fraction. */
  lemma PartsNoExponent(ip: string, fp: string)
    requires ip != [] && AllDigits(ip) && AllDigits(fp)
    ensures AllDigits(ip + fp)
    ensures ParseParts(ip, fp, []) == Some(Scale(DigitsValue(ip + fp) as real, -|fp|))
  {
    assert ParseExponent([]) == Some(0);
    assert AllDigits(ip + fp);
  }

  /** Digits, a point and digits split into the two runs of digits and no
      exponent. */
  lemma PointParts(a: string, b: string)
    requires AllDigits(a) && AllDigits(b)
    ensures ParseUnsigned(a + "." + b) == ParseParts(a, b, [])
  {
    var rest := "." + b;
    assert a + "." + b == a + rest && rest[1..] == b;
    SplitDigitsOf(a, rest);
    assert b + [] == b;
    SplitDigitsOf(b, []);
  }

  /** Digits, a point and digits are read as all the digits taken as one
      integer, scaled down by the number of digits after the point (which
      `DecimalValue` shows to be the integer part plus the fraction). */
  lemma ParseDecimal(a: string, b: string)
    requires a != [] && AllDigits(a) && AllDigits(b)
    ensures AllDigits(a + b)
    ensures ParseFloat(a + "." + b) == Some(Scale(DigitsValue(a + b) as real, -|b|))
  {
    var t := a + "." + b;
    assert t[0] == a[0] && !IsSpace(t[0]);
    assert t[|t| - 1] == if b == [] then '.' else b[|b| - 1];
    ParseTrimmed(t);
    ParseNoSign(t);
    UnsignedDecimal(a, b);
  }

  /** A minus sign negates what the rest of the text is read as, and a plus
      sign changes nothing. */
  lemma ParseSign(t: string)
    requires t == [] || (t[0] != '+' && t[0] != '-')
    ensures ParseSigned("-" + t) == if ParseSigned(t).Some? then Some(-ParseSigned(t).value) else None
    ensures ParseSigned("+" + t) == ParseSigned(t)
  {
    assert ("-" + t)[1..] == t && ("+" + t)[1..] == t;
  }

  /** An unsigned float starts with a digit, or with a point and a digit. */
  lemma UnsignedStart(u: string)
    ensures ParseUnsigned(u).Some? ==>
      u != [] && (IsDigit(u[0]) || (u[0] == '.' && 1 < |u| && IsDigit(u[1])))
  {
    var (ip, rest) := SplitDigits(u);
    if ParseUnsigned(u).Some? && ip == [] {
      assert rest == u;
      var (fp, tail) := SplitDigits(rest[1..]);
      assert fp != [] && fp + tail == u[1..];
      assert fp[0] == u[1];
    }
  }

  /** Only text with a digit in it can be read as a float. */
  lemma ParseNeedsDigit(s: string)
    ensures ParseFloat(s).Some? ==> exists c :: c in s && IsDigit(c)
  {
    var t := Strip(s);
    var u := if t != [] && (t[0] == '+' || t[0] == '-') then t[1..] else t;
    assert ParseFloat(s).Some? ==> ParseUnsigned(u).Some?;
    UnsignedStart(u);
    if ParseUnsigned(u).Some? {
      var k := if IsDigit(u[0]) then 0 else 1;
      assert IsDigit(u[k]) && u[k] in t;
    }
  }

  /** `as_float` gives `None` for a string without a single digit. */
  lemma AsFloatNeedsDigit(s: string)
    ensures AsFloat(JString(s)).Some? ==> exists c :: c in s && IsDigit(c)
  {
    var t := Strip(s);
    if AsFloat(JString(s)).Some? {
      assert ParseFloat(Cleaned(t)).Some?;
      ParseNeedsDigit(Cleaned(t));
      var c :| c in Cleaned(t) && IsDigit(c);
      CleanedDigit(t, c);
    }
  }

  /** Cleaning keeps every digit and adds none. */
  lemma CleanedDigit(t: string, c: char)
    requires c in Cleaned(t) && IsDigit(c)
    ensures c in t
  {
    var u := RemoveChar(t, '%');
    var i :| 0 <= i < |Cleaned(t)| && Cleaned(t)[i] == c;
    assert u[i] == c;
  }

  /** A string with no whitespace at its ends is cleaned as it stands. */
  lemma AsFloatTrimmed(t: string)
    requires t != [] && EdgeTrimmed(t)
    ensures AsFloat(JString(t)) == ParseFloat(Cleaned(t))
  {
  }

  /** Cleaning digits around one separator `sep` that is not a percent
      sign: only the separator can change, a comma becoming a point. */
  lemma CleanedSeparated(a: string, sep: char, b: string)
    requires AllDigits(a) && AllDigits(b) && sep != '%'
    ensures Cleaned(a + [sep] + b) == a + [if sep == ',' then '.' else sep] + b
  {
    var t := a + [sep] + b;
    SeparatedNoPercent(a, sep, b);
    RemoveAbsent(t, '%');
    SeparatedReplaced(a, sep, b);
  }

  lemma SeparatedNoPercent(a: string, sep: char, b: string)
    requires AllDigits(a) && AllDigits(b) && sep != '%'
    ensures '%' !in a + [sep] + b
  {
    var t := a + [sep] + b;
    forall i | 0 <= i < |t| ensures t[i] != '%' {
      if i < |a| {
        assert t[i] == a[i];
      } else if i > |a| {
        assert t[i] == b[i - |a| - 1];
      }
    }
  }

  lemma SeparatedReplaced(a: string, sep: char, b: string)
    requires AllDigits(a) && AllDigits(b)
    ensures ReplaceChar(a + [sep] + b, ',', '.') == a + [if sep == ',' then '.' else sep] + b
  {
    var t := a + [sep] + b;
    var w := a + [if sep == ',' then '.' else sep] + b;
    var u := ReplaceChar(t, ',', '.');
    forall i | 0 <= i < |u| ensures u[i] == w[i] {
      if i < |a| {
        assert t[i] == a[i] == w[i];
      } else if i > |a| {
        assert t[i] == b[i - |a| - 1] == w[i];
      }
    }
    assert u == w;
  }

  lemma CleanedComma(a: string, b: string)
    requires AllDigits(a) && AllDigits(b)
    ensures Cleaned(a + "," + b) == a + "." + b
  {
    CleanedSeparated(a, ',', b);
  }

  lemma CleanedPoint(a: string, b: string)
    requires AllDigits(a) && AllDigits(b)
    ensures Cleaned(a + "." + b) == a + "." + b
  {
    CleanedSeparated(a, '.', b);
  }

  lemma CleanedPercent(a: string)
    requires AllDigits(a)
    ensures Cleaned(a + "%") == a
  {
    RemoveCharAppend(a, "%", '%');
    assert '%' !in a by {
      assert forall i :: 0 <= i < |a| ==> IsDigit(a[i]);
    }
    RemoveAbsent(a, '%');
    assert RemoveChar("%", '%') == [] by {
      assert "%"[1..] == [];
    }
  }

  /** A number written with a comma as its decimal point. */
  lemma AsFloatComma(a: string, b: string)
    requires a != [] && AllDigits(a) && AllDigits(b)
    ensures AllDigits(a + b)
    ensures AsFloat(JString(a + "," + b)) == Some(Scale(DigitsValue(a + b) as real, -|b|))
  {
    var t := a + "," + b;
    assert t[0] == a[0] && !IsSpace(t[0]);
    assert t[|t| - 1] == if b == [] then ',' else b[|b| - 1];
    AsFloatTrimmed(t);
    CleanedComma(a, b);
    ParseDecimal(a, b);
  }

  /** A number written with a decimal point. */
  lemma AsFloatPoint(a: string, b: string)
    requires a != [] && AllDigits(a) && AllDigits(b)
    ensures AllDigits(a + b)
    ensures AsFloat(JString(a + "." + b)) == Some(Scale(DigitsValue(a + b) as real, -|b|))
  {
    var t := a + "." + b;
    assert t[0] == a[0] && !IsSpace(t[0]);
    assert t[|t| - 1] == if b == [] then '.' else b[|b| - 1];
    AsFloatTrimmed(t);
    CleanedPoint(a, b);
    ParseDecimal(a, b);
  }

  /** A percentage: the percent sign is dropped. */
  lemma AsFloatPercent(a: string)
    requires a != [] && AllDigits(a)
    ensures AsFloat(JString(a + "%")) == Some(DigitsValue(a) as real)
  {
    var t := a + "%";
    assert t[0] == a[0] && !IsSpace(t[0]);
    AsFloatTrimmed(t);
    CleanedPercent(a);
    ParseNatural(a);
  }

  /** A signed whole number: a minus sign negates it and a plus sign keeps
      it. */
  lemma AsFloatSigned(a: string)
    requires a != [] && AllDigits(a)
    ensures AsFloat(JString("-" + a)) == Some(-(DigitsValue(a) as real))
    ensures AsFloat(JString("+" + a)) == Some(DigitsValue(a) as real)
  {
    SignedCleaned('-', a);
    SignedCleaned('+', a);
    SignedParse(a);
  }

  lemma SignedParse(a: string)
    requires a != [] && AllDigits(a)
    ensures ParseSigned("-" + a) == Some(-(DigitsValue(a) as real))
    ensures ParseSigned("+" + a) == Some(DigitsValue(a) as real)
  {
    ParseSign(a);
    ParseNoSign(a);
    UnsignedNatural(a);
  }

  /** A sign in front of digits is cleaned as it stands and read without
      surrounding whitespace. */
  lemma SignedCleaned(sign: char, a: string)
    requires sign == '-' || sign == '+'
    requires a != [] && AllDigits(a)
    ensures AsFloat(JString([sign] + a)) == ParseSigned([sign] + a)
  {
    var t := [sign] + a;
    assert t[0] == sign && !IsSpace(t[0]);
    assert t[|t| - 1] == a[|a| - 1] && !IsSpace(t[|t| - 1]);
    AsFloatTrimmed(t);
    CleanedSigned(sign, a);
    ParseTrimmed(t);
  }

  lemma CleanedSigned(sign: char, a: string)
    requires sign == '-' || sign == '+'
    requires AllDigits(a)
    ensures Cleaned([sign] + a) == [sign] + a
  {
    var t := [sign] + a;
    SignedNoPercent(sign, a);
    RemoveAbsent(t, '%');
    var u := ReplaceChar(t, ',', '.');
    forall i | 0 <= i < |t| ensures u[i] == t[i] {
      if i > 0 {
        assert t[i] == a[i - 1];
      }
    }
    assert u == t;
  }

  lemma SignedNoPercent(sign: char, a: string)
    requires sign == '-' || sign == '+'
    requires AllDigits(a)
    ensures '%' !in [sign] + a
  {
    var t := [sign] + a;
    forall i | 0 <= i < |t| ensures t[i] != '%' {
      if i > 0 {
        assert t[i] == a[i - 1];
      }
    }
  }

  /** Whitespace around a value is ignored. */
  lemma AsFloatPadded(w1: string, x: string, w2: string)
    requires AllSpace(w1) && AllSpace(w2)
    requires x != [] && EdgeTrimmed(x)
    ensures AsFloat(JString(w1 + x + w2)) == AsFloat(JString(x))
  {
    StripPadded(w1, x, w2);
    AsFloatTrimmed(x);
    AsFloatOfStripped(w1 + x + w2, x);
  }

  /** `as_float` on a string whose stripped form is `t`. */
  lemma AsFloatOfStripped(s: string, t: string)
    requires Strip(s) == t && t != []
    ensures AsFloat(JString(s)) == ParseFloat(Cleaned(t))
  {
  }

  /** The strings the documentation of `as_float` lists, with what they
      give, and strings it says give `None`. */
  const DocCases: seq<(string, Option<real>)> := [
    ("8,4", Some(8.4)),
    ("83%", Some(83.0)),
    (" 12.3 ", Some(12.3)),
    ("", None),
    ("   ", None),
    ("abc", None)
  ]

  lemma DocExamples()
    ensures forall i :: 0 <= i < |DocCases| ==> AsFloat(JString(DocCases[i].0)) == DocCases[i].1
    ensures AsFloat(JNull) == None
  {
    forall i | 0 <= i < |DocCases| ensures AsFloat(JString(DocCases[i].0)) == DocCases[i].1 {
      var s := DocCases[i].0;
      if i == 0 {
        DocComma(s);
      } else if i == 1 {
        DocPercent(s);
      } else if i == 2 {
        DocPadded(s);
      } else if i == 5 {
        DocLetters(s);
      } else {
        DocBlank(s);
      }
    }
  }

  lemma DocBlank(s: string)
    requires s == "" || s == "   "
    ensures AsFloat(JString(s)) == None
  {
    assert forall i :: 0 <= i < |s| ==> s[i] == ' ';
    BlankNone(s);
  }

  lemma BlankNone(s: string)
    requires AllSpace(s)
    ensures AsFloat(JString(s)) == None
  {
  }

  /** A decimal text whose digits `a` and `b`, taken together as `ab`, make
      `n`, and whose value `v` is `n` scaled down by the length of `b`. */
  predicate DecimalCase(a: string, b: string, ab: string, n: nat, v: real) {
    && a != [] && AllDigits(a) && AllDigits(b)
    && a + b == ab && AllDigits(ab) && DigitsValue(ab) == n
    && Scale(n as real, -|b|) == v
  }

  lemma CommaCase(a: string, b: string, ab: string, n: nat, v: real)
    requires DecimalCase(a, b, ab, n, v)
    ensures AsFloat(JString(a + "," + b)) == Some(v)
  {
    AsFloatComma(a, b);
  }

  lemma PointCase(a: string, b: string, ab: string, n: nat, v: real)
    requires DecimalCase(a, b, ab, n, v)
    ensures AsFloat(JString(a + "." + b)) == Some(v)
  {
    AsFloatPoint(a, b);
  }

  lemma DocComma(s: string)
    requires s == "8,4"
    ensures AsFloat(JString(s)) == Some(8.4)
  {
    assert DecimalCase("8", "4", "84", 84, 8.4);
    assert s == "8" + "," + "4";
    CommaCase("8", "4", "84", 84, 8.4);
  }

  lemma PercentCase(a: string, n: nat)
    requires a != [] && AllDigits(a) && DigitsValue(a) == n
    ensures AsFloat(JString(a + "%")) == Some(n as real)
  {
    AsFloatPercent(a);
  }

  lemma DocPercent(s: string)
    requires s == "83%"
    ensures AsFloat(JString(s)) == Some(83.0)
  {
    assert AllDigits("83") && DigitsValue("83") == 83;
    assert s == "83" + "%";
    PercentCase("83", 83);
  }

  lemma PaddedPointCase(w1: string, w2: string, a: string, b: string, ab: string, n: nat, v: real)
    requires AllSpace(w1) && AllSpace(w2)
    requires DecimalCase(a, b, ab, n, v)
    ensures AsFloat(JString(w1 + (a + "." + b) + w2)) == Some(v)
  {
    var x := a + "." + b;
    assert x[0] == a[0] && !IsSpace(x[0]);
    assert x[|x| - 1] == if b == [] then '.' else b[|b| - 1];
    AsFloatPadded(w1, x, w2);
    PointCase(a, b, ab, n, v);
  }

  lemma DocPadded(s: string)
    requires s == " 12.3 "
    ensures AsFloat(JString(s)) == Some(12.3)
  {
    assert s == " " + ("12" + "." + "3") + " ";
    assert "123"[..2] == "12" && "12"[..1] == "1";
    assert DigitsValue("123") == 123;
    assert Scale(123.0, -1) == 12.3;
    assert DecimalCase("12", "3", "123", 123, 12.3);
    PaddedPointCase(" ", " ", "12", "3", "123", 123, 12.3);
  }

  lemma DocLetters(s: string)
    requires s == "abc"
    ensures AsFloat(JString(s)) == None
  {
    AsFloatNeedsDigit(s);
    assert s[0] == 'a' && s[1] == 'b' && s[2] == 'c' && |s| == 3;
    forall c | c in s ensures !IsDigit(c) {
      var j :| 0 <= j < |s| && s[j] == c;
    }
  }
}
