/** The value coercer `parseValue` (index.mjs): one decoded text token of a
    query string or form body becomes a string, a boolean, null, an integer,
    a float or a JSON value, by the first of a fixed list of tests that
    matches. Floats and JSON values keep the text handed to `parseFloat` and
    `JSON.parse`. */
module Values {
  import opened Text
  import opened Decimal

  datatype Value =
    | Str(s: string)
    | Bool(b: bool)
    | Null
    | Int(i: int)
    | Float(text: string)   // the text given to `parseFloat`
    | Json(text: string)    // the text given to `JSON.parse`

  /** The text without one leading `-` or `+`. */
  function StripSign(s: string): (t: string)
    ensures |t| <= |s|
  {
    if |s| > 0 && (s[0] == '-' || s[0] == '+') then s[1..] else s
  }

  /** `^[-+]?\d+$` */
  predicate IsIntegerText(s: string) {
    IsDigits(StripSign(s))
  }

  /** The value `parseInt` reads from an integer text. */
  function IntegerValue(s: string): int
    requires IsIntegerText(s)
  {
    if s[0] == '-' then -(DecimalValue(s[1..]) as int) else DecimalValue(StripSign(s))
  }

  /** `t` is `\d*\.\d+` with its dot at index `k`. */
  predicate DotAt(t: string, k: int) {
    0 <= k < |t| && t[k] == '.' && AllDigits(t[..k]) && IsDigits(t[k + 1..])
  }

  /** `^[-+]?\d*\.\d+$` */
  predicate IsDecimalText(s: string) {
    var t := StripSign(s);
    exists k :: 0 <= k < |t| && DotAt(t, k)
  }

  /** Braces or brackets at both ends: the text is handed to `JSON.parse`. */
  predicate LooksLikeJson(s: string) {
    (StartsWith(s, "{") && EndsWith(s, "}")) || (StartsWith(s, "[") && EndsWith(s, "]"))
  }

  /** `parseValue`: the empty string, the literals `true`, `false` and
      `null`, an integer, a decimal, a JSON text, and otherwise the text
      itself, tested in that order. */
  function ParseValue(text: string): (r: Value)
    ensures r.Str? ==> r.s == text
    ensures r.Str? <==> text == "" || Canonical(Str(text))
    ensures r.Bool? <==> text == "true" || text == "false"
    ensures r.Bool? ==> r.b == (text == "true")
    ensures r.Null? <==> text == "null"
    ensures r.Int? <==> IsIntegerText(text)
    ensures IsIntegerText(text) ==> r == Int(IntegerValue(text))
    ensures r.Float? <==> IsDecimalText(text)
    ensures r.Float? || r.Json? ==> r.text == text
    ensures r.Json? ==> LooksLikeJson(text)
  {
    KeywordsAreNotNumbers();
    if text == "" then Str(text)
    else if text == "true" then Bool(true)
    else if text == "false" then Bool(false)
    else if text == "null" then Null
    else if IsIntegerText(text) then Int(IntegerValue(text))
    else if IsDecimalText(text) then Float(text)
    else if LooksLikeJson(text) then Json(text)
    else Str(text)
  }

  /** A decimal text has a dot; an integer text has none. */
  lemma DecimalHasDot(s: string)
    ensures IsDecimalText(s) ==> '.' in s
    ensures IsIntegerText(s) ==> '.' !in s
  {
    var t := StripSign(s);
    if IsDecimalText(s) {
      var k :| 0 <= k < |t| && DotAt(t, k);
      assert t[k] == '.';
      if |s| > 0 && (s[0] == '-' || s[0] == '+') {
        assert s[k + 1] == t[k];
      }
    }
  }

  /** An integer or decimal text starts with a sign, a digit or a dot. */
  lemma NumberStart(s: string)
    requires IsIntegerText(s) || IsDecimalText(s)
    ensures |s| > 0 && (s[0] == '-' || s[0] == '+' || s[0] == '.' || IsDigit(s[0]))
  {
    var t := StripSign(s);
    if IsDecimalText(s) {
      var k :| 0 <= k < |t| && DotAt(t, k);
      if k > 0 {
        assert IsDigit(t[..k][0]);
      }
    }
  }

  /** The empty string, `true`, `false` and `null` are neither integer nor
      decimal texts. */
  lemma KeywordsAreNotNumbers()
    ensures !IsIntegerText("") && !IsDecimalText("")
    ensures !IsIntegerText("true") && !IsDecimalText("true")
    ensures !IsIntegerText("false") && !IsDecimalText("false")
    ensures !IsIntegerText("null") && !IsDecimalText("null")
  {
    forall s | s in {"", "true", "false", "null"}
      ensures !IsIntegerText(s) && !IsDecimalText(s)
    {
      if IsIntegerText(s) || IsDecimalText(s) {
        NumberStart(s);
      }
    }
  }

  /** The text of an integer as JavaScript's `String(n)` writes it: a `-`
      for a negative number, never a `+`, and no leading zero. */
  function IntToText(n: int): (s: string)
    ensures IsIntegerText(s) && IntegerValue(s) == n
    ensures s[0] == '-' <==> n < 0
    ensures s[0] != '+'
    ensures var digits := if n < 0 then s[1..] else s;
      |digits| > 0 && (digits[0] == '0' <==> n == 0)
  {
    if n < 0 then
      var s := "-" + NatToDigits(-n);
      assert s[1..] == NatToDigits(-n);
      s
    else NatToDigits(n)
  }

  /** The text a value is written back as: the literals for booleans and
      null, `String(n)` for integers and the carried text otherwise. */
  function ValueText(v: Value): string {
    match v
    case Str(s) => s
    case Bool(b) => if b then "true" else "false"
    case Null => "null"
    case Int(i) => IntToText(i)
    case Float(t) => t
    case Json(t) => t
  }

  /** The values `parseValue` can produce: a float or JSON value carries a
      text of its own shape, and a string is one no earlier test would have
      claimed. */
  predicate Canonical(v: Value) {
    match v
    case Str(s) =>
      s != "true" && s != "false" && s != "null" &&
      !IsIntegerText(s) && !IsDecimalText(s) && !LooksLikeJson(s)
    case Float(t) => IsDecimalText(t)
    case Json(t) => LooksLikeJson(t)
    case _ => true
  }

  /** Writing a value back to text and coercing it again gives the value
      back: integers, booleans, null, floats and JSON texts, and the strings
      that are not shadowed by an earlier test. */
  lemma ParseValueText(v: Value)
    requires Canonical(v)
    ensures ParseValue(ValueText(v)) == v
  {
    match v
    case Str(s) =>
    case Bool(b) =>
    case Null =>
    case Int(i) =>
      KeywordsAreNotNumbers();
    case Float(t) =>
      KeywordsAreNotNumbers();
      DecimalHasDot(t);
    case Json(t) =>
      assert t[0] == '{' || t[0] == '[';
      if IsIntegerText(t) || IsDecimalText(t) {
        NumberStart(t);
      }
  }

  /** Every value `parseValue` produces is canonical. */
  lemma ParseValueCanonical(text: string)
    ensures Canonical(ParseValue(text))
  {
    var r := ParseValue(text);
    if r.Json? {
      assert LooksLikeJson(text);
    }
  }
}
