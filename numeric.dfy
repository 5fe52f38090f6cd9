/**
 * The rate column's cleaning: every ',' becomes '.', then pandas'
 * `to_numeric(errors='coerce')` turns text into a number or NaN.
 * Numbers are exact reals here, not binary floating point.
 */
module Numeric {
  import opened Values
  import Text

  predicate IsDigit(c: char)
  {
    '0' <= c <= '9'
  }

  predicate AllDigits(s: string)
  {
    forall i :: 0 <= i < |s| ==> IsDigit(s[i])
  }

  /** The value of a string of decimal digits, most significant first. */
  function DigitsValue(s: string): nat
    requires AllDigits(s)
  {
    if s == [] then 0 else DigitsValue(s[..|s| - 1]) * 10 + (s[|s| - 1] as int - '0' as int)
  }

  function Pow10(n: nat): (r: nat)
    ensures r >= 1
  {
    if n == 0 then 1 else 10 * Pow10(n - 1)
  }

  /** `v` times ten to the power `e`. */
  function Scale(v: real, e: int): real
  {
    if e >= 0 then v * Pow10(e) as real else v / Pow10(-e) as real
  }

  /** First position whose character satisfies `p`, or `|s|` when there is none. */
  function FindFirst(s: string, p: char -> bool): (r: nat)
    ensures r <= |s|
    ensures forall i :: 0 <= i < r ==> !p(s[i])
    ensures r < |s| ==> p(s[r])
  {
    if s == [] then 0 else if p(s[0]) then 0 else 1 + FindFirst(s[1..], p)
  }

  /** The regular-expression replacement of ',' by '.' on one string. */
  function ReplaceCommas(s: string): (r: string)
    ensures |r| == |s|
    ensures ',' !in r
  {
    if s == [] then [] else [if s[0] == ',' then '.' else s[0]] + ReplaceCommas(s[1..])
  }

  /** Every comma becomes a point and every other character stays where it was. */
  lemma {:induction false} ReplaceCommasAt(s: string, i: nat)
    requires i < |s|
    ensures ReplaceCommas(s)[i] == if s[i] == ',' then '.' else s[i]
  {
    if i > 0 {
      ReplaceCommasAt(s[1..], i - 1);
    }
  }

  /** `replace({',': '.'}, regex=True)` on one cell: only text cells are touched. */
  function ReplaceCommasCell(c: Cell): (r: Cell)
    ensures c.Str? <==> r.Str?
    ensures r.Str? ==> ',' !in r.s && |r.s| == |c.s|
    ensures !c.Str? ==> r == c
  {
    match c
    case Str(s) => Str(ReplaceCommas(s))
    case _ => c
  }

  predicate IsPoint(c: char)
  {
    c == '.'
  }

  predicate IsExponentMark(c: char)
  {
    c == 'e' || c == 'E'
  }

  predicate IsSign(c: char)
  {
    c == '+' || c == '-'
  }

  /** The characters a number may be written with, surrounding space aside. */
  predicate IsNumberChar(c: char)
  {
    IsDigit(c) || IsPoint(c) || IsExponentMark(c) || IsSign(c)
  }

  predicate HasDigit(s: string)
  {
    exists i :: 0 <= i < |s| && IsDigit(s[i])
  }

  /**
   * Digits around at most one '.', with at least one digit: the digits'
   * value read without the point, and how many digits follow the point.
   */
  function ParseMantissa(m: string): Option<(nat, nat)>
  {
    var p := FindFirst(m, IsPoint);
    var whole := m[..p];
    var frac := if p < |m| then m[p + 1..] else [];
    if AllDigits(whole) && AllDigits(frac) && |whole| + |frac| > 0
    then Some((DigitsValue(whole + frac), |frac|))
    else None
  }

  /** Digits and points only, at most one point, at least one digit. */
  predicate IsMantissaText(m: string)
  {
    (forall i :: 0 <= i < |m| ==> IsDigit(m[i]) || IsPoint(m[i]))
    && (forall i, j :: 0 <= i < j < |m| && IsPoint(m[i]) ==> !IsPoint(m[j]))
    && HasDigit(m)
  }

  /** The mantissa reader accepts exactly the mantissa texts. */
  lemma MantissaAccepts(m: string)
    ensures ParseMantissa(m).Some? <==> IsMantissaText(m)
  {
    var p := FindFirst(m, IsPoint);
    MantissaShape(m, p, m[..p], if p < |m| then m[p + 1..] else []);
  }

  /** Split at its first point, a text is a mantissa exactly when both sides are digits, not both empty. */
  lemma MantissaShape(m: string, p: nat, whole: string, frac: string)
    requires p == FindFirst(m, IsPoint)
    requires whole == m[..p] && frac == if p < |m| then m[p + 1..] else []
    ensures AllDigits(whole) && AllDigits(frac) && |whole| + |frac| > 0 <==> IsMantissaText(m)
  {
    if AllDigits(whole) && AllDigits(frac) && |whole| + |frac| > 0 {
      MantissaFromParts(m, p, whole, frac);
    }
    if IsMantissaText(m) {
      MantissaToParts(m, p, whole, frac);
    }
  }

  lemma MantissaFromParts(m: string, p: nat, whole: string, frac: string)
    requires p == FindFirst(m, IsPoint)
    requires whole == m[..p] && frac == if p < |m| then m[p + 1..] else []
    requires AllDigits(whole) && AllDigits(frac) && |whole| + |frac| > 0
    ensures IsMantissaText(m)
  {
    forall i | 0 <= i < |m|
      ensures IsDigit(m[i]) || IsPoint(m[i])
    {
      if i < p {
        assert m[i] == whole[i];
      } else if i > p {
        assert m[i] == frac[i - p - 1];
      }
    }
    forall i, j | 0 <= i < j < |m| && IsPoint(m[i])
      ensures !IsPoint(m[j])
    {
      assert m[j] == frac[j - p - 1];
    }
    if |whole| > 0 {
      assert IsDigit(m[0]);
    } else {
      assert m[p + 1] == frac[0];
    }
  }

  lemma MantissaToParts(m: string, p: nat, whole: string, frac: string)
    requires p == FindFirst(m, IsPoint)
    requires whole == m[..p] && frac == if p < |m| then m[p + 1..] else []
    requires IsMantissaText(m)
    ensures AllDigits(whole) && AllDigits(frac) && |whole| + |frac| > 0
  {
    forall k | 0 <= k < |frac|
      ensures IsDigit(frac[k])
    {
      assert frac[k] == m[p + 1 + k];
    }
    var d :| 0 <= d < |m| && IsDigit(m[d]);
    if d > p {
      assert frac[d - p - 1] == m[d];
    }
  }

  /** An exponent after 'e' or 'E': an optional sign and at least one digit. */
  function ParseExponent(e: string): Option<int>
  {
    var negative := |e| > 0 && e[0] == '-';
    var ds := if |e| > 0 && (e[0] == '-' || e[0] == '+') then e[1..] else e;
    if |ds| > 0 && AllDigits(ds)
    then Some(if negative then -(DigitsValue(ds) as int) else DigitsValue(ds) as int)
    else None
  }

  /** The exponent reader accepts an optional sign followed by digits, and nothing else. */
  lemma ExponentAccepts(e: string)
    ensures ParseExponent(e).Some? <==>
      HasDigit(e) && (IsDigit(e[0]) || IsSign(e[0])) && forall i :: 0 < i < |e| ==> IsDigit(e[i])
  {
    assert HasDigit(e) && |e| > 0 && IsSign(e[0]) ==> HasDigit(e[1..]) by {
      if HasDigit(e) && |e| > 0 && IsSign(e[0]) {
        var d :| 0 <= d < |e| && IsDigit(e[d]);
        assert e[1..][d - 1] == e[d];
      }
    }
    assert forall i :: 0 < i < |e| ==> e[1..][i - 1] == e[i];
  }

  /** A mantissa and an optional exponent making up the whole text, without sign. */
  function ParseUnsigned(body: string): Option<real>
  {
    var e := FindFirst(body, IsExponentMark);
    var mantissa := ParseMantissa(body[..e]);
    var exponent := if e < |body| then ParseExponent(body[e + 1..]) else Some(0);
    if mantissa.Some? && exponent.Some?
    then Some(Scale(mantissa.value.0 as real, exponent.value - mantissa.value.1))
    else None
  }

  /** Whatever the unsigned reader accepts has a digit and is written in number characters. */
  lemma UnsignedAccepts(body: string)
    ensures ParseUnsigned(body).Some? ==> HasDigit(body) && forall i :: 0 <= i < |body| ==> IsNumberChar(body[i])
  {
    var e := FindFirst(body, IsExponentMark);
    if ParseUnsigned(body).Some? {
      MantissaAccepts(body[..e]);
      UnsignedChars(body, e);
    }
  }

  /** A mantissa followed, after an exponent mark, by an exponent is written in number characters. */
  lemma UnsignedChars(body: string, e: nat)
    requires e <= |body| && IsMantissaText(body[..e])
    requires e < |body| ==> IsExponentMark(body[e]) && ParseExponent(body[e + 1..]).Some?
    ensures HasDigit(body) && forall i :: 0 <= i < |body| ==> IsNumberChar(body[i])
  {
    var m := body[..e];
    if e < |body| {
      ExponentAccepts(body[e + 1..]);
    }
    var d :| 0 <= d < |m| && IsDigit(m[d]);
    assert IsDigit(body[d]);
    forall i | 0 <= i < |body|
      ensures IsNumberChar(body[i])
    {
      if i < e {
        assert body[i] == m[i];
      } else if i > e {
        var x := body[e + 1..];
        assert body[i] == x[i - e - 1];
        if i > e + 1 {
          assert IsDigit(x[i - e - 1]);
        }
      }
    }
  }

  /** An optional '+' or '-' in front of an unsigned number. */
  function ParseSigned(t: string): Option<real>
  {
    if |t| > 0 && (t[0] == '-' || t[0] == '+') then
      match ParseUnsigned(t[1..])
      case Some(v) => Some(if t[0] == '-' then -v else v)
      case None => None
    else ParseUnsigned(t)
  }

  /** Whatever the signed reader accepts has a digit and is written in number characters. */
  lemma SignedAccepts(t: string)
    ensures ParseSigned(t).Some? ==> HasDigit(t) && forall i :: 0 <= i < |t| ==> IsNumberChar(t[i])
  {
    if ParseSigned(t).Some? {
      if |t| > 0 && (t[0] == '-' || t[0] == '+') {
        var u := t[1..];
        UnsignedAccepts(u);
        var d :| 0 <= d < |u| && IsDigit(u[d]);
        assert t[d + 1] == u[d];
        forall i | 0 < i < |t|
          ensures IsNumberChar(t[i])
        {
          assert t[i] == u[i - 1];
        }
      } else {
        UnsignedAccepts(t);
      }
    }
  }

  /**
   * pandas' number parser on one string: surrounding ASCII whitespace is
   * skipped, then an optional sign, a mantissa and an optional exponent must
   * make up the whole text; anything else is not a number.
   */
  function ParseNumber(s: string): (r: Option<real>)
    ensures r.Some? ==> HasDigit(s)
    ensures r.Some? ==> forall i :: 0 <= i < |s| ==> IsNumberChar(s[i]) || Text.IsAsciiSpace(s[i])
  {
    var r := ParseSigned(Text.StripBy(s, Text.IsAsciiSpace));
    if r.Some? then StrippedChars(s); r else r
  }

  /** Every character of `s` is either kept by stripping or is surrounding ASCII whitespace. */
  lemma StrippedChars(s: string)
    requires ParseSigned(Text.StripBy(s, Text.IsAsciiSpace)).Some?
    ensures HasDigit(s)
    ensures forall i :: 0 <= i < |s| ==> IsNumberChar(s[i]) || Text.IsAsciiSpace(s[i])
  {
    var lo := Text.SpanFrom(s, Text.IsAsciiSpace, 0);
    var hi := Text.SpanBack(s, Text.IsAsciiSpace, lo, |s|);
    assert s[lo..hi] == Text.StripBy(s, Text.IsAsciiSpace);
    SignedAccepts(s[lo..hi]);
    SliceChars(s, lo, hi);
  }

  /** A slice written in number characters, with a digit, and only ASCII whitespace around it. */
  lemma SliceChars(s: string, lo: nat, hi: nat)
    requires lo <= hi <= |s|
    requires HasDigit(s[lo..hi]) && forall i :: 0 <= i < hi - lo ==> IsNumberChar(s[lo..hi][i])
    requires forall k :: 0 <= k < lo ==> Text.IsAsciiSpace(s[k])
    requires forall k :: hi <= k < |s| ==> Text.IsAsciiSpace(s[k])
    ensures HasDigit(s)
    ensures forall i :: 0 <= i < |s| ==> IsNumberChar(s[i]) || Text.IsAsciiSpace(s[i])
  {
    var t := s[lo..hi];
    var d :| 0 <= d < |t| && IsDigit(t[d]);
    assert s[lo + d] == t[d];
    forall i | lo <= i < hi
      ensures IsNumberChar(s[i])
    {
      assert s[i] == t[i - lo];
    }
  }

  /** `pd.to_numeric(errors='coerce')` on one cell: numbers stay, NaN stays, text is parsed or becomes NaN. */
  function ToNumeric(c: Cell): (r: Option<real>)
    ensures c.Num? ==> r == Some(c.x)
    ensures c.Null? ==> r == None
  {
    match c
    case Num(x) => Some(x)
    case Null => None
    case Str(s) => ParseNumber(s)
  }

  /** The rate column's two cleaning lines applied to one cell. */
  function CoerceRate(c: Cell): (r: Option<real>)
    ensures c.Num? ==> r == Some(c.x)
    ensures c.Null? ==> r == None
    ensures c.Str? && ',' !in c.s ==> r == ParseNumber(c.s)
    ensures c.Str? && r.Some? ==> HasDigit(c.s)
    ensures c.Str? && r.Some? ==> forall i :: 0 <= i < |c.s| ==>
      IsNumberChar(c.s[i]) || c.s[i] == ',' || Text.IsAsciiSpace(c.s[i])
  {
    if c.Str? then CommaTextRead(c.s); ToNumeric(ReplaceCommasCell(c))
    else ToNumeric(ReplaceCommasCell(c))
  }

  /** What the number parser makes of text once its commas are points. */
  lemma CommaTextRead(x: string)
    ensures ',' !in x ==> ParseNumber(ReplaceCommas(x)) == ParseNumber(x)
    ensures ParseNumber(ReplaceCommas(x)).Some? ==> HasDigit(x)
    ensures ParseNumber(ReplaceCommas(x)).Some? ==> forall i :: 0 <= i < |x| ==>
      IsNumberChar(x[i]) || x[i] == ',' || Text.IsAsciiSpace(x[i])
  {
    var y := ReplaceCommas(x);
    ReplaceCommasEach(x);
    if ParseNumber(y).Some? {
      var d :| 0 <= d < |y| && IsDigit(y[d]);
      assert IsDigit(x[d]);
    }
  }

  // ---------------------------------------------------------------------------
  // The Brazilian decimal notation the spreadsheet uses, and its round trip.
  // ---------------------------------------------------------------------------

  function DigitChar(d: nat): (c: char)
    requires d < 10
    ensures IsDigit(c) && c as int - '0' as int == d
  {
    ('0' as int + d) as char
  }

  /** The decimal digits of `n`, without leading zeros. */
  function NatDigits(n: nat): (r: string)
    ensures |r| > 0 && AllDigits(r) && DigitsValue(r) == n
  {
    if n < 10 then [DigitChar(n)]
    else
      var r := NatDigits(n / 10) + [DigitChar(n % 10)];
      assert r[..|r| - 1] == NatDigits(n / 10);
      r
  }

  /** A leading zero does not change the value of a digit string. */
  lemma {:induction false} LeadingZeroValue(s: string)
    requires AllDigits(s)
    ensures AllDigits("0" + s) && DigitsValue("0" + s) == DigitsValue(s)
  {
    if s != [] {
      LeadingZeroValue(s[..|s| - 1]);
      assert ("0" + s)[..|s|] == "0" + s[..|s| - 1];
    }
  }

  /** Left-pads a digit string with zeros to at least `width` characters. */
  function ZeroPad(s: string, width: nat): (r: string)
    requires AllDigits(s)
    ensures |r| >= width && |r| >= |s| && AllDigits(r) && DigitsValue(r) == DigitsValue(s)
    decreases width - |s|
  {
    if |s| >= width then s
    else
      LeadingZeroValue(s);
      ZeroPad("0" + s, width)
  }

  /**
   * A number in the spreadsheet's notation: an optional minus sign, the
   * integer digits and, when there are fraction digits, a comma before them.
   */
  function DecimalText(negative: bool, whole: string, frac: string): string
  {
    (if negative then "-" else "") + whole + (if frac == [] then "" else "," + frac)
  }

  /** The value of `[-]whole,frac`: the digits over ten to the number of fraction digits, negated after a minus. */
  function DecimalValue(negative: bool, whole: string, frac: string): real
    requires AllDigits(whole) && AllDigits(frac)
  {
    var v := DigitsValue(whole + frac) as real / Pow10(|frac|) as real;
    if negative then -v else v
  }

  /** How the spreadsheet writes `m / 10^k`: exactly `k` digits after the comma. */
  function BrazilianDecimal(m: int, k: nat): string
  {
    var ds := ZeroPad(NatDigits(if m < 0 then -m else m), k + 1);
    DecimalText(m < 0, ds[..|ds| - k], ds[|ds| - k..])
  }

  lemma {:induction false} ReplaceCommasAppend(a: string, b: string)
    ensures ReplaceCommas(a + b) == ReplaceCommas(a) + ReplaceCommas(b)
  {
    if a == [] {
      assert a + b == b;
    } else {
      assert (a + b)[0] == a[0];
      assert (a + b)[1..] == a[1..] + b;
      ReplaceCommasAppend(a[1..], b);
    }
  }

  /** Text without a comma passes through the replacement unchanged. */
  lemma {:induction false} ReplaceCommasNoComma(s: string)
    requires ',' !in s
    ensures ReplaceCommas(s) == s
  {
    if s != [] {
      assert ',' !in s[1..];
      ReplaceCommasNoComma(s[1..]);
      assert s == [s[0]] + s[1..];
    }
  }

  /** Replacing touches only commas, and text without a comma is left as it is. */
  lemma ReplaceCommasEach(s: string)
    ensures forall i :: 0 <= i < |s| ==> ReplaceCommas(s)[i] == if s[i] == ',' then '.' else s[i]
    ensures ',' !in s ==> ReplaceCommas(s) == s
  {
    forall i | 0 <= i < |s|
      ensures ReplaceCommas(s)[i] == if s[i] == ',' then '.' else s[i]
    {
      ReplaceCommasAt(s, i);
    }
    if ',' !in s {
      ReplaceCommasNoComma(s);
    }
  }

  /** Replacing twice is replacing once. */
  lemma ReplaceCommasIdempotent(s: string)
    ensures ReplaceCommas(ReplaceCommas(s)) == ReplaceCommas(s)
  {
    ReplaceCommasNoComma(ReplaceCommas(s));
  }

  /** The mantissa parser reads integer digits, a point and fraction digits back. */
  lemma MantissaOfDigits(whole: string, frac: string, hasPoint: bool)
    requires AllDigits(whole) && AllDigits(frac) && |whole| > 0
    requires !hasPoint ==> frac == []
    ensures ParseMantissa(whole + (if hasPoint then "." + frac else ""))
         == Some((DigitsValue(whole + frac), |frac|))
  {
    var m := whole + (if hasPoint then "." + frac else "");
    var p := FindFirst(m, IsPoint);
    assert forall i :: 0 <= i < |whole| ==> m[i] == whole[i];
    if hasPoint {
      assert m[|whole|] == '.';
      assert p == |whole|;
      assert m[..p] == whole;
      assert m[p + 1..] == frac;
    } else {
      assert m == whole;
    }
  }

  /** Text without an exponent mark is read as a bare mantissa. */
  lemma UnsignedWithoutExponent(body: string)
    requires forall i :: 0 <= i < |body| ==> !IsExponentMark(body[i])
    ensures ParseMantissa(body).None? ==> ParseUnsigned(body).None?
    ensures ParseMantissa(body).Some? ==>
      ParseUnsigned(body) == Some(Scale(ParseMantissa(body).value.0 as real, -(ParseMantissa(body).value.1 as int)))
  {
    assert body[..|body|] == body;
  }

  /** Text without surrounding ASCII whitespace goes to the sign reader as it is. */
  lemma ParseNumberUnpadded(s: string)
    requires Text.NoEdgeBy(s, Text.IsAsciiSpace)
    ensures ParseNumber(s) == ParseSigned(s)
  {
    Text.StripByFixpoint(s, Text.IsAsciiSpace);
  }

  /**
   * A number written without surrounding space and with an optional minus
   * sign, whose digits parse to `u`: its value is `u`, negated after a minus.
   */
  lemma ParseSignedValue(negative: bool, body: string, u: real)
    requires body != [] && IsDigit(body[|body| - 1]) && IsDigit(body[0])
    requires ParseUnsigned(body) == Some(u)
    ensures ParseNumber((if negative then "-" else "") + body) == Some(if negative then -u else u)
  {
    if negative {
      ParseMinusValue(body, u);
    } else {
      assert "" + body == body;
      ParsePlainValue(body, u);
    }
  }

  /** Digits without a sign parse as they stand. */
  lemma ParsePlainValue(body: string, u: real)
    requires body != [] && IsDigit(body[|body| - 1]) && IsDigit(body[0])
    requires ParseUnsigned(body) == Some(u)
    ensures ParseNumber(body) == Some(u)
  {
    assert !Text.IsAsciiSpace(body[0]) && !Text.IsAsciiSpace(body[|body| - 1]);
    ParseNumberUnpadded(body);
    assert body[0] != '-' && body[0] != '+';
  }

  /** A minus sign in front of digits that parse to `u` gives `-u`. */
  lemma ParseMinusValue(body: string, u: real)
    requires body != [] && IsDigit(body[|body| - 1])
    requires ParseUnsigned(body) == Some(u)
    ensures ParseNumber("-" + body) == Some(-u)
  {
    var s := "-" + body;
    SignedMinus(body, u);
    assert s[0] == '-' && s[|s| - 1] == body[|body| - 1];
    assert Text.NoEdgeBy(s, Text.IsAsciiSpace);
    ParseNumberUnpadded(s);
  }

  /** The sign reader negates what follows a minus. */
  lemma SignedMinus(body: string, u: real)
    requires ParseUnsigned(body) == Some(u)
    ensures ParseSigned("-" + body) == Some(-u)
  {
    assert ("-" + body)[1..] == body;
  }

  /** The comma of the spreadsheet's notation becomes a point; nothing else changes. */
  lemma DecimalTextDotted(negative: bool, whole: string, frac: string)
    requires AllDigits(whole) && AllDigits(frac)
    ensures ReplaceCommas(DecimalText(negative, whole, frac))
         == (if negative then "-" else "") + DottedBody(whole, frac)
  {
    var sign := if negative then "-" else "";
    var tail := if frac == [] then "" else "," + frac;
    var dotted := if frac == [] then "" else "." + frac;
    DigitsHaveNoComma(whole);
    SignHasNoComma(negative);
    TailDotted(frac);
    DottedParts(sign, whole, tail, dotted);
    assert DecimalText(negative, whole, frac) == sign + whole + tail;
    assert DottedBody(whole, frac) == whole + dotted;
  }

  lemma DottedParts(sign: string, whole: string, tail: string, dotted: string)
    requires ReplaceCommas(sign) == sign && ReplaceCommas(whole) == whole && ReplaceCommas(tail) == dotted
    ensures ReplaceCommas(sign + whole + tail) == sign + (whole + dotted)
  {
    ReplaceCommasAppend(sign + whole, tail);
    ReplaceCommasAppend(sign, whole);
    assert sign + whole + dotted == sign + (whole + dotted);
  }

  lemma DigitsHaveNoComma(s: string)
    requires AllDigits(s)
    ensures ReplaceCommas(s) == s
  {
    assert ',' !in s by { assert forall i :: 0 <= i < |s| ==> IsDigit(s[i]); }
    ReplaceCommasNoComma(s);
  }

  lemma SignHasNoComma(negative: bool)
    ensures ReplaceCommas(if negative then "-" else "") == (if negative then "-" else "")
  {
    ReplaceCommasNoComma(if negative then "-" else "");
  }

  lemma TailDotted(frac: string)
    requires AllDigits(frac)
    ensures ReplaceCommas(if frac == [] then "" else "," + frac) == (if frac == [] then "" else "." + frac)
  {
    if frac != [] {
      ReplaceCommasAppend(",", frac);
      DigitsHaveNoComma(frac);
      assert ReplaceCommas(",") == ".";
    }
  }

  /** The integer digits, then a point and the fraction digits when there are any. */
  function DottedBody(whole: string, frac: string): string
  {
    whole + (if frac == [] then "" else "." + frac)
  }

  /** Shape of a dotted body: digit at both ends, no exponent mark. */
  lemma DottedBodyShape(whole: string, frac: string)
    requires AllDigits(whole) && AllDigits(frac) && |whole| > 0
    ensures var body := DottedBody(whole, frac);
            && body != [] && IsDigit(body[0]) && IsDigit(body[|body| - 1])
            && forall i :: 0 <= i < |body| ==> !IsExponentMark(body[i])
  {
    var body := DottedBody(whole, frac);
    assert body[0] == whole[0];
    assert IsDigit(body[|body| - 1]) by {
      if frac == [] { assert body == whole; } else { assert body[|body| - 1] == frac[|frac| - 1]; }
    }
    assert forall i :: 0 <= i < |body| ==> IsDigit(body[i]) || body[i] == '.';
  }

  /** A dotted body is worth its digits over ten to the number of fraction digits. */
  lemma DottedBodyValue(whole: string, frac: string)
    requires AllDigits(whole) && AllDigits(frac) && |whole| > 0
    ensures ParseUnsigned(DottedBody(whole, frac))
         == Some(DigitsValue(whole + frac) as real / Pow10(|frac|) as real)
  {
    var body := DottedBody(whole, frac);
    DottedBodyShape(whole, frac);
    DottedMantissa(whole, frac);
    UnsignedWithoutExponent(body);
    ScaleDown(DigitsValue(whole + frac) as real, |frac|);
  }

  /** A dotted body is a mantissa: its digits, and how many follow the point. */
  lemma DottedMantissa(whole: string, frac: string)
    requires AllDigits(whole) && AllDigits(frac) && |whole| > 0
    ensures ParseMantissa(DottedBody(whole, frac)) == Some((DigitsValue(whole + frac), |frac|))
  {
    MantissaOfDigits(whole, frac, frac != []);
    assert DottedBody(whole, frac) == whole + (if frac != [] then "." + frac else "");
  }

  /** A dotted body behind an optional minus sign is worth its digits' value, negated after the minus. */
  lemma SignedDottedValue(negative: bool, whole: string, frac: string, v: real)
    requires AllDigits(whole) && AllDigits(frac) && |whole| > 0
    requires v == DigitsValue(whole + frac) as real / Pow10(|frac|) as real
    ensures ParseNumber((if negative then "-" else "") + DottedBody(whole, frac)) == Some(if negative then -v else v)
  {
    DottedBodyShape(whole, frac);
    DottedBodyValue(whole, frac);
    if negative {
      ParseSignedValue(true, DottedBody(whole, frac), v);
    } else {
      ParseSignedValue(false, DottedBody(whole, frac), v);
    }
  }

  /**
   * Reading back the spreadsheet's notation: after the comma becomes a point,
   * the parser recovers the digits' value over ten to the number of fraction
   * digits, negated after a minus sign.
   */
  lemma {:induction false} DecimalTextRoundTrip(negative: bool, whole: string, frac: string, v: real)
    requires AllDigits(whole) && AllDigits(frac) && |whole| > 0
    requires v == DigitsValue(whole + frac) as real / Pow10(|frac|) as real
    ensures CoerceRate(Str(DecimalText(negative, whole, frac))) == Some(if negative then -v else v)
  {
    DecimalTextDotted(negative, whole, frac);
    SignedDottedValue(negative, whole, frac, v);
    CoerceTextVia(DecimalText(negative, whole, frac), (if negative then "-" else "") + DottedBody(whole, frac),
                  Some(if negative then -v else v));
  }

  /** The spreadsheet's notation is read back as the value it denotes. */
  lemma DecimalTextValue(negative: bool, whole: string, frac: string)
    requires AllDigits(whole) && AllDigits(frac) && |whole| > 0
    ensures CoerceRate(Str(DecimalText(negative, whole, frac))) == Some(DecimalValue(negative, whole, frac))
  {
    var v := DigitsValue(whole + frac) as real / Pow10(|frac|) as real;
    DecimalTextRoundTrip(negative, whole, frac, v);
    assert DecimalValue(negative, whole, frac) == if negative then -v else v;
  }

  /** A text cell's coerced value is the parse of its comma-replaced text. */
  lemma CoerceTextVia(x: string, dotted: string, r: Option<real>)
    requires ReplaceCommas(x) == dotted && ParseNumber(dotted) == r
    ensures CoerceRate(Str(x)) == r
  {
  }

  /** The digits `BrazilianDecimal` writes before and after its comma. */
  lemma BrazilianDigits(m: int, k: nat) returns (whole: string, frac: string)
    ensures AllDigits(whole) && AllDigits(frac) && |whole| > 0 && |frac| == k
    ensures DigitsValue(whole + frac) == (if m < 0 then -m else m)
    ensures BrazilianDecimal(m, k) == DecimalText(m < 0, whole, frac)
  {
    var ds := ZeroPad(NatDigits(if m < 0 then -m else m), k + 1);
    whole, frac := ds[..|ds| - k], ds[|ds| - k..];
    assert whole + frac == ds;
  }

  /** The round trip for `m / 10^k` written with `k` digits after the comma. */
  lemma BrazilianDecimalRoundTrip(m: int, k: nat)
    ensures CoerceRate(Str(BrazilianDecimal(m, k))) == Some(m as real / Pow10(k) as real)
  {
    var whole, frac := BrazilianDigits(m, k);
    var p := Pow10(k) as real;
    var v := (if m < 0 then -m else m) as real / p;
    DecimalTextRoundTrip(m < 0, whole, frac, v);
    SignedQuotient(m, p, v);
    SameCoercion(BrazilianDecimal(m, k), DecimalText(m < 0, whole, frac), Some(m as real / p));
  }

  /** Negating the quotient of the magnitude gives the quotient of the signed numerator. */
  lemma SignedQuotient(m: int, p: real, v: real)
    requires p > 0.0 && v == (if m < 0 then -m else m) as real / p
    ensures (if m < 0 then -v else v) == m as real / p
  {
    if m < 0 {
      NegatedQuotient((-m) as real, p);
    }
  }

  lemma SameCoercion(x: string, y: string, r: Option<real>)
    requires x == y && CoerceRate(Str(y)) == r
    ensures CoerceRate(Str(x)) == r
  {
  }

  lemma NegatedQuotient(x: real, p: real)
    requires p > 0.0
    ensures -(x / p) == (-x) / p
  {
  }

  /** Scaling by a non-positive power of ten is division by the matching power. */
  lemma ScaleDown(v: real, k: nat)
    ensures Scale(v, -(k as int)) == v / Pow10(k) as real
  {
    if k == 0 {
      assert Pow10(0) == 1;
    }
  }

  /** The example of the rate column: "87,3" is read as 87.3. */
  lemma CommaDecimalExample()
    ensures CoerceRate(Str("87,3")) == Some(87.3)
  {
    DigitsOf873();
    DecimalTextValue(false, "87", "3");
    assert DecimalValue(false, "87", "3") == 87.3;
    TextOf873();
    SameCoercion("87,3", DecimalText(false, "87", "3"), Some(87.3));
  }

  lemma TextOf873()
    ensures DecimalText(false, "87", "3") == "87,3"
  {
  }

  lemma DigitsOf873()
    ensures AllDigits("87") && AllDigits("3")
    ensures 87.3 == DigitsValue("87" + "3") as real / Pow10(|"3"|) as real
  {
    assert "87" + "3" == "873";
    assert "873"[..2] == "87" && "87"[..1] == "8" && "8"[..0] == "";
    assert DigitsValue("873") == 873;
    assert Pow10(1) == 10;
  }

  /** A lone dash, the spreadsheet's mark for a missing rate, becomes NaN rather than an error. */
  lemma DashIsMissing()
    ensures CoerceRate(Str("-")) == None
  {
    assert ReplaceCommas("-") == "-";
    Text.StripByFixpoint("-", Text.IsAsciiSpace);
    assert ParseUnsigned("") == None;
  }

  /** An empty cell becomes NaN. */
  lemma EmptyIsMissing()
    ensures CoerceRate(Str("")) == None
  {
  }

  /** A thousands separator leaves two points after the replacement, which is not a number. */
  lemma ThousandsSeparatorIsMissing()
    ensures CoerceRate(Str("1.234,5")) == None
  {
    assert ReplaceCommas("1.234,5") == "1.234.5";
    TwoPointsIsMissing();
    CoerceTextVia("1.234,5", "1.234.5", None);
  }

  lemma TwoPointsIsMissing()
    ensures ParseNumber("1.234.5") == None
  {
    var m := "1.234.5";
    TwoPointsUnsigned();
    assert ParseSigned(m) == ParseUnsigned(m);
    assert Text.NoEdgeBy(m, Text.IsAsciiSpace);
    ParseNumberUnpadded(m);
  }

  lemma TwoPointsUnsigned()
    ensures ParseUnsigned("1.234.5") == None
  {
    var m := "1.234.5";
    assert IsPoint(m[1]) && IsPoint(m[5]);
    MantissaAccepts(m);
    assert forall i :: 0 <= i < |m| ==> !IsExponentMark(m[i]);
    UnsignedWithoutExponent(m);
  }
}
