/** Parsed translation dictionaries as JavaScript sees them: a JSON value,
    JavaScript truthiness and `typeof`, property access `v[k]`, and the
    `String(v)` coercion a regular-expression test applies to non-strings. */
module JsonValues {
  import opened Base
  import Strings

  /** A value produced by `JSON.parse`. Numbers are integers in this model. */
  datatype Json =
    | JStr(s: string)
    | JNum(n: int)
    | JBool(b: bool)
    | JNull
    | JArr(items: seq<Json>)
    | JObj(members: map<string, Json>)

  /** JavaScript truthiness (`!!v`). */
  predicate Truthy(v: Json) {
    match v
    case JNull => false
    case JBool(b) => b
    case JNum(n) => n != 0
    case JStr(s) => s != ""
    case _ => true
  }

  /** `typeof v === 'object'`, which holds of `null` as well. */
  predicate IsObjectType(v: Json) {
    v.JObj? || v.JArr? || v.JNull?
  }

  predicate IsDigit(c: char) {
    '0' <= c <= '9'
  }

  predicate AllDigits(k: string) {
    forall i :: 0 <= i < |k| ==> IsDigit(k[i])
  }

  function DigitValue(c: char): nat
    requires IsDigit(c)
  {
    c as int - '0' as int
  }

  function DigitChar(d: nat): (c: char)
    requires d < 10
    ensures IsDigit(c) && DigitValue(c) == d
  {
    ('0' as int + d) as char
  }

  /** The number a string of decimal digits denotes. */
  function DigitsValue(k: string): nat
    requires AllDigits(k)
  {
    if |k| == 0 then 0 else DigitsValue(k[..|k| - 1]) * 10 + DigitValue(k[|k| - 1])
  }

  /** Decimal notation of a natural number, as `String(n)` writes it. */
  function NatToString(n: nat): (r: string)
    ensures |r| >= 1 && AllDigits(r)
    ensures r[0] != '0' || |r| == 1
  {
    if n < 10 then [DigitChar(n)] else NatToString(n / 10) + [DigitChar(n % 10)]
  }

  /** The array index a property name denotes: a canonical decimal numeral
      (no sign, no leading zero). */
  function ArrayIndex(k: string): Option<nat> {
    if |k| >= 1 && AllDigits(k) && (k[0] != '0' || |k| == 1) then Some(DigitsValue(k)) else None
  }

  lemma {:induction false} LeadingDigitBound(k: string)
    requires |k| >= 1 && AllDigits(k) && k[0] != '0'
    ensures DigitsValue(k) >= 1
    decreases |k|
  {
    if |k| > 1 {
      LeadingDigitBound(k[..|k| - 1]);
    }
  }

  /** Reading back the numeral of n gives n. */
  lemma {:induction false} IndexOfNumeral(n: nat)
    ensures ArrayIndex(NatToString(n)) == Some(n)
    decreases n
  {
    var r := NatToString(n);
    if n >= 10 {
      IndexOfNumeral(n / 10);
      assert r[..|r| - 1] == NatToString(n / 10);
      assert DigitsValue(r) == (n / 10) * 10 + n % 10;
    } else {
      assert DigitsValue(r) == DigitsValue(r[..0]) * 10 + n;
    }
  }

  /** Writing out an array index gives back the property name. */
  lemma {:induction false} NumeralOfIndex(k: string, n: nat)
    requires ArrayIndex(k) == Some(n)
    ensures NatToString(n) == k
    decreases |k|
  {
    if |k| > 1 {
      var p := k[..|k| - 1];
      assert AllDigits(p);
      LeadingDigitBound(p);
      assert n == DigitsValue(p) * 10 + DigitValue(k[|k| - 1]);
      assert n / 10 == DigitsValue(p) && n % 10 == DigitValue(k[|k| - 1]);
      assert p[0] == k[0];
      NumeralOfIndex(p, DigitsValue(p));
      assert k == p + [k[|k| - 1]];
    }
  }

  /** Property access `v[k]` on a value that is neither `null` nor
      `undefined`; `None` is `undefined`. Arrays and strings answer their
      `length` and their index properties; properties inherited from the
      prototypes (`toString`, `constructor`, ...) are not modelled. */
  function Member(v: Json, k: string): Option<Json>
    requires !v.JNull?
  {
    match v
    case JObj(m) => if k in m then Some(m[k]) else None
    case JArr(items) =>
      if k == "length" then Some(JNum(|items|))
      else if ArrayIndex(k).Some? && ArrayIndex(k).value < |items| then Some(items[ArrayIndex(k).value])
      else None
    case JStr(s) =>
      if k == "length" then Some(JNum(|s|))
      else if ArrayIndex(k).Some? && ArrayIndex(k).value < |s| then Some(JStr([s[ArrayIndex(k).value]]))
      else None
    case _ => None
  }

  function IntToString(n: int): string {
    if n < 0 then "-" + NatToString(-n) else NatToString(n)
  }

  /** `String(v)`, with `None` standing for `undefined`. Arrays join their
      elements with commas, writing `null` elements as empty strings. */
  function ToJsString(v: Option<Json>): string {
    match v
    case None => "undefined"
    case Some(j) => JsonToString(j)
  }

  function JsonToString(j: Json): string
    decreases j
  {
    match j
    case JStr(s) => s
    case JNum(n) => IntToString(n)
    case JBool(b) => if b then "true" else "false"
    case JNull => "null"
    case JObj(_) => "[object Object]"
    case JArr(items) =>
      if |items| == 0 then ""
      else Strings.Join(seq(|items|, i requires 0 <= i < |items| =>
                              if items[i].JNull? then "" else JsonToString(items[i])), ',')
  }
}
