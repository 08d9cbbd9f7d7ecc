/**
 * `maybeNumber`, the tolerant numeric parse of the ingestion code, and the
 * JavaScript `Number(string)` conversion it rests on, with numbers as exact
 * reals. `None` stands for JavaScript's `null` result: the input was null,
 * empty, or not a finite number.
 */
module NumberParse {
  import opened Wrappers
  import opened JsText
  import opened JsValues

  function Pow10(k: nat): (p: nat)
    ensures p >= 1
  {
    if k == 0 then 1 else 10 * Pow10(k - 1)
  }

  /** `v * 10^e` for an integer exponent. */
  function ScaleByPow10(v: real, e: int): real {
    if e >= 0 then v * Pow10(e) as real else v / Pow10(-e) as real
  }

  /** The value of digit `c` in the given base (2, 8 or 16), or none. */
  function BaseDigit(c: char, base: nat): Option<nat> {
    var d :=
      if '0' <= c <= '9' then c as int - '0' as int
      else if 'a' <= c <= 'f' then c as int - 'a' as int + 10
      else if 'A' <= c <= 'F' then c as int - 'A' as int + 10
      else 16;
    if d < base then Some(d) else None
  }

  predicate AllBaseDigits(s: string, base: nat) {
    forall k :: 0 <= k < |s| ==> BaseDigit(s[k], base).Some?
  }

  /** The value of a string of digits in `base`, most significant first. */
  function BaseValue(s: string, base: nat): nat
    requires AllBaseDigits(s, base)
  {
    if s == [] then 0 else BaseValue(s[..|s| - 1], base) * base + BaseDigit(s[|s| - 1], base).value
  }

  /** The first index of an exponent marker `e` or `E`. */
  function ExponentIndex(s: string): (r: Option<nat>)
    ensures r.Some? ==> r.value < |s| && s[r.value] in {'e', 'E'}
    ensures r.None? ==> 'e' !in s && 'E' !in s
  {
    if s == [] then None
    else if s[0] == 'e' || s[0] == 'E' then Some(0)
    else match ExponentIndex(s[1..]) {
      case None => None
      case Some(i) => Some(i + 1)
    }
  }

  /** A signed decimal exponent: an optional sign and at least one digit. */
  function Exponent(s: string): Option<int> {
    var (neg, ds) :=
      if s != [] && s[0] == '-' then (true, s[1..])
      else if s != [] && s[0] == '+' then (false, s[1..])
      else (false, s);
    if ds != [] && AllDigits(ds) then Some(if neg then 0 - DigitsValue(ds) as int else DigitsValue(ds) as int) else None
  }

  /** Digits with at most one `.`, and at least one digit. */
  function Mantissa(s: string): Option<real> {
    if '.' in s then
      var i := IndexOf(s, '.');
      var ip, fp := s[..i], s[i + 1..];
      if AllDigits(ip) && AllDigits(fp) && |ip| + |fp| >= 1
      then Some(DigitsValue(ip) as real + DigitsValue(fp) as real / Pow10(|fp|) as real)
      else None
    else if s != [] && AllDigits(s) then Some(DigitsValue(s) as real)
    else None
  }

  /** An unsigned decimal literal: a mantissa and an optional exponent part. */
  function UnsignedDecimal(s: string): Option<real> {
    match ExponentIndex(s)
    case None => Mantissa(s)
    case Some(p) =>
      match (Mantissa(s[..p]), Exponent(s[p + 1..]))
      case (Some(m), Some(e)) => Some(ScaleByPow10(m, e))
      case _ => None
  }

  /** A `0x`/`0o`/`0b` literal: the prefix letter's base and at least one digit. */
  function NonDecimal(t: string): Option<nat> {
    if |t| > 2 && t[0] == '0' then
      var base := if t[1] in {'x', 'X'} then 16 else if t[1] in {'o', 'O'} then 8
        else if t[1] in {'b', 'B'} then 2 else 0;
      if base != 0 && AllBaseDigits(t[2..], base) then Some(BaseValue(t[2..], base)) else None
    else None
  }

  /**
   * `Number(s)` when it is finite: white space around the literal is ignored,
   * the empty literal is 0, `Infinity` (signed or not) is not finite, and
   * anything outside the literal grammar is NaN.
   */
  function StringToNumber(s: string): Option<real> {
    var t := Trim(s);
    if t == "" then Some(0.0)
    else if NonDecimal(t).Some? then Some(NonDecimal(t).value as real)
    else
      var (neg, u) :=
        if t[0] == '-' then (true, t[1..]) else if t[0] == '+' then (false, t[1..]) else (false, t);
      if u == "Infinity" then None
      else match UnsignedDecimal(u)
        case None => None
        case Some(x) => Some(if neg then -x else x)
  }

  /** Blank text is 0, and a signed or unsigned `Infinity` is not finite. */
  lemma {:induction false} StringToNumberSpecialValues(s: string)
    ensures Trim(s) == "" ==> StringToNumber(s) == Some(0.0)
    ensures Trim(s) == "Infinity" || Trim(s) == "+Infinity" || Trim(s) == "-Infinity" ==> StringToNumber(s) == None
  {
  }

  /**
   * `Number(v)` when it is finite. Null is 0, booleans are 1 and 0, text is
   * read as a numeric literal, undefined and objects are NaN. An array is
   * read through its `join(",")` text: the empty array is 0, one element is
   * read as that element's text (null and undefined join as ""), and two or
   * more elements leave a comma in the text, which no literal admits.
   */
  function JsNumber(v: JsValue): Option<real>
    decreases v
  {
    match v
    case JUndefined => None
    case JNull => Some(0.0)
    case JBool(b) => Some(if b then 1.0 else 0.0)
    case JNum(x) => Some(x)
    case JStr(s) => StringToNumber(s)
    case JObj(_) => None
    case JArr(es) =>
      if |es| == 0 then Some(0.0)
      else if |es| > 1 then None
      else if IsNullish(es[0]) then Some(0.0)
      else if es[0].JBool? then None
      else JsNumber(es[0])
  }

  /** A one-element array coerces like its element's text: `[null]` and `[undefined]` are 0, `[true]` is NaN. */
  lemma {:induction false} JsNumberOfSingleton(v: JsValue)
    ensures JsNumber(JArr([v])) == (if IsNullish(v) then Some(0.0) else if v.JBool? then None else JsNumber(v))
  {
  }

  /** Nesting an array in a one-element array does not change its number. */
  lemma {:induction false} JsNumberOfNested(es: seq<JsValue>)
    ensures JsNumber(JArr([JArr(es)])) == JsNumber(JArr(es))
  {
  }

  /** `Number` and `maybeNumber` agree on numbers and on non-blank text that holds no `$` or `,`. */
  lemma {:induction false} MaybeNumberIsJsNumber(v: JsValue)
    requires v.JNum? || (v.JStr? && Trim(v.s) != "" && StripCurrency(v.s) == v.s)
    ensures MaybeNumber(v) == JsNumber(v)
  {
    if v.JStr? {
      assert Cleaned(v) == Trim(v.s);
      StringToNumberOfTrim(v.s);
    }
  }

  /** `Number` trims its argument itself, so trimming first changes nothing. */
  lemma {:induction false} StringToNumberOfTrim(s: string)
    ensures StringToNumber(Trim(s)) == StringToNumber(s)
  {
    TrimOfTrimmed(Trim(s));
  }

  /** `String(v).replace(/[$,]/g, "").trim()`, for values whose `String` is fixed text. */
  function Cleaned(v: JsValue): string
    requires !v.JNum? && !v.JArr?
  {
    Trim(StripCurrency(FixedString(v)))
  }

  /**
   * `maybeNumber(v)`: null for null and undefined, null for text that is empty
   * once `$`, `,` and surrounding white space are removed, otherwise the value
   * of `Number` on what is left when that is finite.
   */
  function MaybeNumber(v: JsValue): (r: Option<real>)
    ensures IsNullish(v) ==> r == None
    ensures v.JStr? && Trim(StripCurrency(v.s)) == "" ==> r == None
    ensures v.JStr? && Trim(StripCurrency(v.s)) != "" ==> r == StringToNumber(Trim(StripCurrency(v.s)))
  {
    match v
    case JUndefined => None
    case JNull => None
    case JNum(x) => Some(x)
    case JArr(_) => None
    case _ =>
      var s := Cleaned(v);
      if s == "" then None else StringToNumber(s)
  }

  /** A non-empty digit string is not changed by cleaning. */
  lemma {:induction false} DigitsAreClean(s: string)
    requires s != [] && AllDigits(s)
    ensures Trim(StripCurrency(s)) == s
  {
    assert '$' !in s && ',' !in s;
    StripCurrencyKeeps(s);
    assert IsDigit(s[0]) && IsDigit(s[|s| - 1]);
    TrimOfTrimmed(s);
  }

  lemma {:induction false} DigitsAreUnsignedDecimal(s: string)
    requires s != [] && AllDigits(s)
    ensures UnsignedDecimal(s) == Some(DigitsValue(s) as real)
  {
    assert ExponentIndex(s).None?;
    assert '.' !in s;
  }

  /** A digit string without a leading zero is a decimal literal with the digits' value. */
  lemma {:induction false} DigitsAreNumber(s: string)
    requires s != [] && AllDigits(s) && (|s| > 1 ==> s[0] != '0')
    ensures StringToNumber(s) == Some(DigitsValue(s) as real)
  {
    assert IsDigit(s[0]) && IsDigit(s[|s| - 1]);
    TrimOfTrimmed(s);
    assert NonDecimal(s).None?;
    assert s[0] != '-' && s[0] != '+';
    assert s != "Infinity";
    DigitsAreUnsignedDecimal(s);
  }

  /** `Number(String(n))` is `n` for a non-negative integer. */
  lemma {:induction false} StringToNumberOfNatString(n: nat)
    ensures StringToNumber(NatToString(n)) == Some(n as real)
  {
    DigitsAreNumber(NatToString(n));
    NatToStringValue(n);
  }

  /** A decimal rendering of a non-negative integer reads back as that integer. */
  lemma {:induction false} MaybeNumberOfNatString(n: nat)
    ensures MaybeNumber(JStr(NatToString(n))) == Some(n as real)
  {
    var s := NatToString(n);
    DigitsAreClean(s);
    DigitsAreNumber(s);
    NatToStringValue(n);
  }

  /** `maybeNumber` of text depends only on the text with `$` and `,` removed. */
  lemma {:induction false} MaybeNumberThroughStrip(x: string, y: string)
    requires StripCurrency(x) == StripCurrency(y)
    ensures MaybeNumber(JStr(x)) == MaybeNumber(JStr(y))
  {
  }

  /** A currency sign or thousands separator anywhere in the text does not change the value. */
  lemma {:induction false} CurrencySignIgnored(a: string, b: string, c: char)
    requires c == '$' || c == ','
    ensures MaybeNumber(JStr(a + [c] + b)) == MaybeNumber(JStr(a + b))
  {
    StripCurrencyDrops(a, b, c);
    MaybeNumberThroughStrip(a + [c] + b, a + b);
  }
}
