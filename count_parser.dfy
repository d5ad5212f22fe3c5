/** `TweetScraper.parse_count`: best-effort parsing of the abbreviated
    counts ("1.2K", "3,400", "2M") found in accessibility labels. The
    decimal value is kept exact, as mantissa / 10^scale, where the source
    uses a Python float. */
module CountParser {
  import opened Text

  /** The regular-expression class `[\d,.]`. */
  predicate IsNumChar(c: char) { IsDigit(c) || c == ',' || c == '.' }

  /** The class `[KMB]` of magnitude letters; case-sensitive. */
  predicate IsMagnitude(c: char) { c == 'K' || c == 'M' || c == 'B' }

  /** Position of the first `[\d,.]` character, or |s| when there is none:
      where `re.search` finds its match. */
  function FirstNumIndex(s: string): (i: nat)
    ensures i <= |s|
    ensures i < |s| ==> IsNumChar(s[i])
  {
    if |s| == 0 || IsNumChar(s[0]) then 0 else 1 + FirstNumIndex(s[1..])
  }

  /** No character before that position is of the class. */
  lemma {:induction false} FirstNumIndexFirst(s: string)
    ensures forall k :: 0 <= k < FirstNumIndex(s) ==> !IsNumChar(s[k])
  {
    if |s| > 0 && !IsNumChar(s[0]) {
      FirstNumIndexFirst(s[1..]);
      assert forall k :: 1 <= k < FirstNumIndex(s) ==> s[k] == s[1..][k - 1];
    }
  }

  /** The two groups of a match of `([\d,.]+)\s*([KMB])?`. */
  datatype Token = Token(number: string, magnitude: Option<char>)

  /** The group `\s*([KMB])?` at the start of `s`: the first character
      after the leading whitespace, if it is a magnitude letter. */
  function MagnitudeAfter(s: string): (m: Option<char>)
    ensures m.Some? ==> IsMagnitude(m.value)
  {
    var k := PrefixRun(IsSpace, s);
    if k < |s| && IsMagnitude(s[k]) then Some(s[k]) else None
  }

  /** `re.search(r"([\d,.]+)\s*([KMB])?", text)`: the first maximal run of
      digits, commas and dots, and the magnitude letter that follows it after
      optional whitespace; None when the text has no such character. */
  function SearchToken(text: string): (m: Option<Token>)
    ensures m.Some? && m.value.magnitude.Some? ==> IsMagnitude(m.value.magnitude.value)
  {
    var i := FirstNumIndex(text);
    if i == |text| then None else Some(TokenFrom(text, i))
  }

  /** The groups of the match whose number starts at `text[i]`: the
      longest run of `[\d,.]` from there. */
  function TokenFrom(text: string, i: nat): Token
    requires i <= |text|
  {
    TokenAt(text, i, i + PrefixRun(IsNumChar, text[i..]))
  }

  /** The groups of a match whose number spans `text[i..j]`. */
  function TokenAt(text: string, i: nat, j: nat): Token
    requires i <= j <= |text|
  {
    Token(text[i..j], MagnitudeAfter(text[j..]))
  }

  /** The number a match yields is a nonempty piece of the text that
      starts at its first `[\d,.]` character. */
  lemma SearchTokenSpec(text: string)
    ensures var m := SearchToken(text);
      m.Some? ==>
        var i, num := FirstNumIndex(text), m.value.number;
        0 < |num| && i + |num| <= |text| && text[i..i + |num|] == num
  {
    var i := FirstNumIndex(text);
    if i < |text| {
      var s := text[i..];
      var n := PrefixRun(IsNumChar, s);
      SearchTokenAt(text, i);
      TokenFromTo(text, i, i + n);
      assert s[0] == text[i];
    }
  }

  /** That piece is a run of `[\d,.]` the next character does not extend. */
  lemma SearchTokenMaximal(text: string)
    ensures var m := SearchToken(text);
      m.Some? ==>
        var i, num := FirstNumIndex(text), m.value.number;
        && (forall k :: 0 <= k < |num| ==> IsNumChar(num[k]))
        && (i + |num| < |text| ==> !IsNumChar(text[i + |num|]))
  {
    var i := FirstNumIndex(text);
    if i < |text| {
      var s := text[i..];
      var n := PrefixRun(IsNumChar, s);
      SearchTokenAt(text, i);
      TokenFromTo(text, i, i + n);
      PrefixRunAll(IsNumChar, s);
      assert forall k :: 0 <= k < n ==> text[i..i + n][k] == s[k];
      if i + n < |text| {
        assert s[n] == text[i + n];
      }
    }
  }

  /** There is no match exactly when the text has no `[\d,.]` character. */
  lemma SearchTokenNone(text: string)
    ensures SearchToken(text).None? <==> forall k :: 0 <= k < |text| ==> !IsNumChar(text[k])
  {
    FirstNumIndexFirst(text);
  }

  /** `s.replace(",", "")`. */
  function RemoveCommas(s: string): (r: string)
    ensures |r| <= |s|
    ensures ',' !in r
    ensures ',' !in s ==> r == s
    ensures forall c :: c != ',' ==> (c in r <==> c in s)
  {
    if s == [] then [] else (if s[0] == ',' then [] else [s[0]]) + RemoveCommas(s[1..])
  }

  /** Removing commas distributes over concatenation. */
  lemma {:induction false} RemoveCommasAppend(a: string, b: string)
    ensures RemoveCommas(a + b) == RemoveCommas(a) + RemoveCommas(b)
    decreases |a|
  {
    if a == [] {
      assert a + b == b;
    } else {
      assert (a + b)[1..] == a[1..] + b;
      RemoveCommasAppend(a[1..], b);
    }
  }

  /** On one character: nothing for a comma, the character otherwise. */
  lemma RemoveCommasSingle(c: char)
    ensures RemoveCommas([c]) == if c == ',' then [] else [c]
  {
    assert [c][1..] == [];
  }

  predicate AllDigits(s: string) { forall k :: 0 <= k < |s| ==> IsDigit(s[k]) }

  predicate AtMostOneDot(s: string)
  {
    forall a, b :: 0 <= a < b < |s| ==> !(s[a] == '.' && s[b] == '.')
  }

  /** What `float` accepts among strings of digits, commas and dots once
      the commas are gone. */
  predicate IsNumber(s: string)
  {
    && (forall k :: 0 <= k < |s| ==> IsDigit(s[k]) || s[k] == '.')
    && AtMostOneDot(s)
    && (exists k :: 0 <= k < |s| && IsDigit(s[k]))
  }

  /** The value of a string of decimal digits. */
  function DigitsValue(s: string): nat
    requires AllDigits(s)
  {
    if s == [] then 0 else 10 * DigitsValue(s[..|s| - 1]) + (s[|s| - 1] as int - '0' as int)
  }

  function Pow10(n: nat): (p: nat)
    ensures p >= 1
  {
    if n == 0 then 1 else 10 * Pow10(n - 1)
  }

  predicate IsNotDot(c: char) { c != '.' }

  /** The exact value mantissa / 10^scale. */
  datatype Decimal = Decimal(mantissa: nat, scale: nat)

  /** `float(s)` on a string of digits and dots: it succeeds exactly when
      at most one dot and at least one digit occur ("5.", ".5" and "12" are
      numbers, "." and "1.2.3" are not). The digits after the dot count
      towards the scale. */
  function ParseDecimal(s: string): (d: Option<Decimal>)
    ensures d.Some? <==> IsNumber(s)
    ensures d.Some? && '.' !in s ==> d.value == Decimal(DigitsValue(s), 0)
  {
    var p := PrefixRun(IsNotDot, s);
    PrefixRunAll(IsNotDot, s);
    var whole := s[..p];
    var frac := if p < |s| then s[p + 1..] else "";
    assert p < |s| ==> s == whole + ['.'] + frac;
    assert p == |s| ==> s == whole;
    assert '.' !in s ==> p == |s| && whole + frac == s;
    if AllDigits(whole) && AllDigits(frac) && |whole| + |frac| > 0 then
      Some(Decimal(DigitsValue(whole + frac), |frac|))
    else
      None
  }

  /** K, M and B scale by 10^3, 10^6 and 10^9; no letter leaves the value. */
  function Multiplier(magnitude: Option<char>): nat
  {
    match magnitude
    case Some('K') => 1_000
    case Some('M') => 1_000_000
    case Some('B') => 1_000_000_000
    case _ => 1
  }

  /** Division of naturals, which rounds down. */
  function Quotient(x: nat, p: nat): nat
    requires p >= 1
  {
    x / p
  }

  /** `int(value * mult)`: the scaled value truncated toward zero. */
  function Truncate(d: Decimal, mult: nat): nat
  {
    Quotient(d.mantissa * mult, Pow10(d.scale))
  }

  /** `parse_count(text)`: the first number of the text, scaled by its
      magnitude letter and truncated toward zero; 0 when the text holds no
      digit, comma or dot, or when the first run of them is not a number
      once its commas are removed. Never fails. */
  function ParseCount(text: string): (n: nat)
    ensures (forall k :: 0 <= k < |text| ==> !IsNumChar(text[k])) ==> n == 0
    ensures SearchToken(text).Some? && !IsNumber(RemoveCommas(SearchToken(text).value.number)) ==> n == 0
  {
    match SearchToken(text)
    case None => 0
    case Some(tok) =>
      match ParseDecimal(RemoveCommas(tok.number))
      case None => 0
      case Some(d) => Truncate(d, Multiplier(tok.magnitude))
  }

  /** The first character of `[\d,.]` is the first one after a prefix
      that has none. */
  lemma {:induction false} FirstNumIndexAfter(prefix: string, t: string)
    requires forall k :: 0 <= k < |prefix| ==> !IsNumChar(prefix[k])
    requires t != [] && IsNumChar(t[0])
    ensures FirstNumIndex(prefix + t) == |prefix|
  {
    if prefix == [] {
      assert prefix + t == t;
    } else {
      assert (prefix + t)[0] == prefix[0];
      assert (prefix + t)[1..] == prefix[1..] + t;
      assert forall k :: 0 <= k < |prefix[1..]| ==> prefix[1..][k] == prefix[k + 1];
      FirstNumIndexAfter(prefix[1..], t);
    }
  }

  /** The match, given where its number starts. */
  lemma SearchTokenAt(text: string, i: nat)
    requires i == FirstNumIndex(text) && i < |text|
    ensures SearchToken(text) == Some(TokenFrom(text, i))
  {
  }

  /** The match from `i`, given where its number ends. */
  lemma TokenFromTo(text: string, i: nat, j: nat)
    requires i <= |text| && j == i + PrefixRun(IsNumChar, text[i..])
    ensures TokenFrom(text, i) == TokenAt(text, i, j)
  {
  }

  /** The match on a text laid out as: no numeric character, the numeric
      run `num`, then a rest that does not continue the run. */
  lemma SearchTokenOf(prefix: string, num: string, after: string)
    requires forall k :: 0 <= k < |prefix| ==> !IsNumChar(prefix[k])
    requires num != [] && forall k :: 0 <= k < |num| ==> IsNumChar(num[k])
    requires after == [] || !IsNumChar(after[0])
    ensures SearchToken(prefix + (num + after)) == Some(Token(num, MagnitudeAfter(after)))
  {
    var rest := num + after;
    var text := prefix + rest;
    var i, j := |prefix|, |prefix| + |num|;
    assert FirstNumIndex(text) == i by {
      FirstNumIndexAfter(prefix, rest);
    }
    assert text[i..] == rest;
    assert PrefixRun(IsNumChar, rest) == |num| by {
      PrefixRunOf(IsNumChar, num, after);
    }
    SearchTokenAt(text, i);
    TokenFromTo(text, i, j);
    assert text[i..j] == num by {
      assert text[i..j] == rest[..|num|];
    }
    assert text[j..] == after by {
      assert text[j..] == rest[|num|..];
    }
  }

  /** The magnitude letter is read after any amount of whitespace. */
  lemma MagnitudeAfterOf(spaces: string, tail: string)
    requires forall k :: 0 <= k < |spaces| ==> IsSpace(spaces[k])
    requires tail == [] || !IsSpace(tail[0])
    ensures MagnitudeAfter(spaces + tail) == if tail != [] && IsMagnitude(tail[0]) then Some(tail[0]) else None
  {
    PrefixRunOf(IsSpace, spaces, tail);
    assert tail != [] ==> (spaces + tail)[|spaces|] == tail[0];
  }

  /** A string of digits converts to its own value, with no fractional digits. */
  lemma ParseDecimalOfDigits(s: string)
    requires s != [] && AllDigits(s)
    ensures ParseDecimal(s) == Some(Decimal(DigitsValue(s), 0))
  {
    assert IsDigit(s[0]);
    assert '.' !in s;
  }

  lemma TruncateWhole(v: nat, mult: nat)
    ensures Truncate(Decimal(v, 0), mult) == v * mult
  {
  }

  /** How `parse_count` combines a successful match and a successful
      `float` conversion. */
  lemma ParseCountOfToken(text: string, num: string, magnitude: Option<char>, d: Decimal)
    requires SearchToken(text) == Some(Token(num, magnitude))
    requires ParseDecimal(RemoveCommas(num)) == Some(d)
    ensures ParseCount(text) == Truncate(d, Multiplier(magnitude))
  {
  }

  /** A count written out in digits, optionally followed by whitespace and a
      magnitude letter, is read back exactly and scaled by that letter. */
  lemma ParseCountOfDigits(prefix: string, digits: string, spaces: string, tail: string)
    requires forall k :: 0 <= k < |prefix| ==> !IsNumChar(prefix[k])
    requires digits != [] && AllDigits(digits)
    requires forall k :: 0 <= k < |spaces| ==> IsSpace(spaces[k])
    requires tail == [] || (!IsSpace(tail[0]) && (spaces != [] || !IsNumChar(tail[0])))
    ensures ParseCount(prefix + digits + spaces + tail)
         == DigitsValue(digits) * Multiplier(if tail != [] && IsMagnitude(tail[0]) then Some(tail[0]) else None)
  {
    var after := spaces + tail;
    var text := prefix + (digits + after);
    var magnitude := if tail != [] && IsMagnitude(tail[0]) then Some(tail[0]) else None;
    assert prefix + digits + spaces + tail == text;
    assert SearchToken(text) == Some(Token(digits, magnitude)) by {
      assert spaces != [] ==> after[0] == spaces[0];
      SearchTokenOf(prefix, digits, after);
      MagnitudeAfterOf(spaces, tail);
    }
    assert RemoveCommas(digits) == digits by { assert ',' !in digits; }
    ParseDecimalOfDigits(digits);
    ParseCountOfToken(text, digits, magnitude, Decimal(DigitsValue(digits), 0));
    TruncateWhole(DigitsValue(digits), Multiplier(magnitude));
  }

  /** `float` on a numeral with one decimal point. */
  lemma ParseDecimalOfPoint(whole: string, frac: string)
    requires AllDigits(whole) && AllDigits(frac) && |whole| + |frac| > 0
    ensures ParseDecimal(whole + "." + frac) == Some(Decimal(DigitsValue(whole + frac), |frac|))
  {
    var s := whole + "." + frac;
    assert s == whole + ("." + frac);
    PrefixRunOf(IsNotDot, whole, "." + frac);
    assert s[..|whole|] == whole;
    assert s[|whole| + 1..] == frac;
  }

  /** Appending digits shifts the value of the leading ones. */
  lemma {:induction false} DigitsValueAppend(a: string, b: string)
    requires AllDigits(a) && AllDigits(b)
    ensures DigitsValue(a + b) == DigitsValue(a) * Pow10(|b|) + DigitsValue(b)
  {
    if b == [] {
      assert a + b == a;
    } else {
      var b' := b[..|b| - 1];
      var d := b[|b| - 1] as int - '0' as int;
      assert (a + b)[..|a + b| - 1] == a + b';
      DigitsValueAppend(a, b');
      var x, p := DigitsValue(a), Pow10(|b'|);
      assert DigitsValue(b) == 10 * DigitsValue(b') + d;
      assert Pow10(|b|) == 10 * p;
      assert DigitsValue(a + b) == 10 * (x * p + DigitsValue(b')) + d;
      ShiftDigit(x, p, DigitsValue(b'), d);
    }
  }

  /** The arithmetic step of `DigitsValueAppend`. */
  lemma ShiftDigit(x: int, p: int, v: int, d: int)
    ensures 10 * (x * p + v) + d == x * (10 * p) + (10 * v + d)
  {
  }

  /** A numeral with a decimal point is a run of `[\d,.]` without commas. */
  lemma PointNumeralChars(whole: string, frac: string)
    requires AllDigits(whole) && AllDigits(frac)
    ensures forall k :: 0 <= k < |whole + "." + frac| ==> IsNumChar((whole + "." + frac)[k])
    ensures RemoveCommas(whole + "." + frac) == whole + "." + frac
  {
    var num := whole + "." + frac;
    assert forall k :: 0 <= k < |num| ==> num[k] != ',';
  }

  /** The truncated value of whole.frac, scaled by `mult`. */
  lemma TruncatePoint(whole: string, frac: string, mult: nat)
    requires AllDigits(whole) && AllDigits(frac)
    ensures Truncate(Decimal(DigitsValue(whole + frac), |frac|), mult)
         == (DigitsValue(whole) * Pow10(|frac|) + DigitsValue(frac)) * mult / Pow10(|frac|)
  {
    DigitsValueAppend(whole, frac);
  }

  /** The match on a text holding a numeral with a decimal point. */
  lemma SearchTokenOfDecimal(prefix: string, whole: string, frac: string, spaces: string, tail: string)
    requires forall k :: 0 <= k < |prefix| ==> !IsNumChar(prefix[k])
    requires AllDigits(whole) && AllDigits(frac)
    requires forall k :: 0 <= k < |spaces| ==> IsSpace(spaces[k])
    requires tail == [] || (!IsSpace(tail[0]) && (spaces != [] || !IsNumChar(tail[0])))
    ensures SearchToken(prefix + ((whole + "." + frac) + (spaces + tail)))
         == Some(Token(whole + "." + frac, if tail != [] && IsMagnitude(tail[0]) then Some(tail[0]) else None))
  {
    var after := spaces + tail;
    PointNumeralChars(whole, frac);
    assert spaces != [] ==> after[0] == spaces[0];
    SearchTokenOf(prefix, whole + "." + frac, after);
    MagnitudeAfterOf(spaces, tail);
  }

  /** A count with a decimal point, such as "1.2K", "5." or ".5", is its
      exact value scaled by the magnitude letter and truncated toward zero. */
  lemma ParseCountOfDecimal(prefix: string, whole: string, frac: string, spaces: string, tail: string)
    requires forall k :: 0 <= k < |prefix| ==> !IsNumChar(prefix[k])
    requires AllDigits(whole) && AllDigits(frac) && |whole| + |frac| > 0
    requires forall k :: 0 <= k < |spaces| ==> IsSpace(spaces[k])
    requires tail == [] || (!IsSpace(tail[0]) && (spaces != [] || !IsNumChar(tail[0])))
    ensures ParseCount(prefix + whole + "." + frac + spaces + tail)
         == Truncate(Decimal(DigitsValue(whole + frac), |frac|),
                     Multiplier(if tail != [] && IsMagnitude(tail[0]) then Some(tail[0]) else None))
  {
    var num := whole + "." + frac;
    var text := prefix + (num + (spaces + tail));
    var magnitude := if tail != [] && IsMagnitude(tail[0]) then Some(tail[0]) else None;
    assert prefix + whole + "." + frac + spaces + tail == text by {
      ConcatAssoc(prefix, num, spaces);
      ConcatAssoc(prefix, num + spaces, tail);
      ConcatAssoc(num, spaces, tail);
    }
    var d := Decimal(DigitsValue(whole + frac), |frac|);
    SearchTokenOfDecimal(prefix, whole, frac, spaces, tail);
    assert ParseDecimal(RemoveCommas(num)) == Some(d) by {
      PointNumeralChars(whole, frac);
      ParseDecimalOfPoint(whole, frac);
    }
    ParseCountOfToken(text, num, magnitude, d);
  }

  /** Thousands separators do not change the reading: two numeric runs that
      agree once their commas are removed ("3,400" and "3400") read alike. */
  lemma ParseCountIgnoresCommas(prefix: string, num1: string, num2: string, after: string)
    requires forall k :: 0 <= k < |prefix| ==> !IsNumChar(prefix[k])
    requires num1 != [] && forall k :: 0 <= k < |num1| ==> IsNumChar(num1[k])
    requires num2 != [] && forall k :: 0 <= k < |num2| ==> IsNumChar(num2[k])
    requires after == [] || !IsNumChar(after[0])
    requires RemoveCommas(num1) == RemoveCommas(num2)
    ensures ParseCount(prefix + num1 + after) == ParseCount(prefix + num2 + after)
  {
    SearchTokenOf(prefix, num1, after);
    SearchTokenOf(prefix, num2, after);
    ConcatAssoc(prefix, num1, after);
    ConcatAssoc(prefix, num2, after);
  }
}
