/**
 * The small part of JavaScript's value semantics that the server actions rely on:
 * reading a submitted form field, `Number(x)`, the `||` fallback on numbers and
 * strings, and `String.prototype.startsWith`.
 */
module JsSemantics {
  import opened Wrappers

  /** A submitted form: field name to its (first) string value. File values are not modelled. */
  type Form = map<string, string>

  /** `formData.get(name)`: the value, or null when the field was not submitted. */
  function Get(form: Form, name: string): (r: Option<string>)
    ensures r.Some? <==> name in form
    ensures r.Some? ==> r.value == form[name]
  {
    if name in form then Some(form[name]) else None
  }

  /** `formData.get(name) as string || null`: missing and empty both become null. */
  function EmptyToNull(v: Option<string>): (r: Option<string>)
    ensures r.None? <==> (v.None? || v.value == "")
    ensures r.Some? ==> r == v
  {
    match v
    case None => None
    case Some(s) => if s == "" then None else Some(s)
  }

  /** A nullable column filled from a form field with `|| null`: null exactly when the field is missing or empty, else its text. */
  predicate NullableField(form: Form, name: string, v: Option<string>) {
    && (v.None? <==> (name !in form || form[name] == ""))
    && (v.Some? ==> v.value == form[name])
  }

  /** `EmptyToNull` of a form field is the nullable column the field fills. */
  lemma EmptyToNullIsNullableField(form: Form, name: string)
    ensures NullableField(form, name, EmptyToNull(Get(form, name)))
  {
  }

  /** `formData.get(name) as string || fallback` for a string fallback. */
  function OrString(v: Option<string>, fallback: string): (r: string)
    ensures (v.None? || v.value == "") ==> r == fallback
    ensures (v.Some? && v.value != "") ==> r == v.value
  {
    match v
    case None => fallback
    case Some(s) => if s == "" then fallback else s
  }

  /** A JavaScript number, restricted to the integers and NaN. */
  datatype JsNumber = Finite(value: int) | NaN

  /** Truthiness of a number: 0 and NaN are falsy. */
  predicate Truthy(n: JsNumber) {
    n.Finite? && n.value != 0
  }

  /** `Number(x) || fallback`. */
  function OrNumber(n: JsNumber, fallback: int): (r: int)
    ensures Truthy(n) ==> r == n.value
    ensures !Truthy(n) ==> r == fallback
  {
    if n.Finite? && n.value != 0 then n.value else fallback
  }

  /** The white-space and line-terminator characters `Number` trims. */
  predicate IsJsSpace(c: char) {
    c == ' ' || c == '\t' || c == '\n' || c == '\r' || c == '\U{000B}' || c == '\U{000C}'
    || c == '\U{00A0}' || c == '\U{1680}' || ('\U{2000}' <= c <= '\U{200A}')
    || c == '\U{2028}' || c == '\U{2029}' || c == '\U{202F}' || c == '\U{205F}'
    || c == '\U{3000}' || c == '\U{FEFF}'
  }

  predicate IsDigit(c: char) { '0' <= c <= '9' }

  function TrimStart(s: string): (r: string)
    ensures |r| <= |s| && r == s[|s| - |r|..]
    ensures r != [] ==> !IsJsSpace(r[0])
    ensures forall i :: 0 <= i < |s| - |r| ==> IsJsSpace(s[i])
  {
    if s != [] && IsJsSpace(s[0]) then TrimStart(s[1..]) else s
  }

  function TrimEnd(s: string): (r: string)
    ensures |r| <= |s| && r == s[..|r|]
    ensures r != [] ==> !IsJsSpace(r[|r| - 1])
    ensures forall i :: |r| <= i < |s| ==> IsJsSpace(s[i])
  {
    if s != [] && IsJsSpace(s[|s| - 1]) then TrimEnd(s[..|s| - 1]) else s
  }

  /** The value of a non-empty run of decimal digits. */
  function DigitsValue(s: string): (r: nat)
    requires forall i :: 0 <= i < |s| ==> IsDigit(s[i])
  {
    if s == [] then 0
    else
      var last := s[|s| - 1];
      assert IsDigit(last);
      DigitsValue(s[..|s| - 1]) * 10 + (last as int - '0' as int)
  }

  predicate AllDigits(s: string) {
    s != [] && forall i :: 0 <= i < |s| ==> IsDigit(s[i])
  }

  /** Decimal digits, optionally after one sign: the trimmed texts `Number` reads as an integer. */
  predicate SignedDigits(t: string) {
    AllDigits(t) || (|t| >= 2 && (t[0] == '+' || t[0] == '-') && AllDigits(t[1..]))
  }

  /** The number a trimmed, non-empty string denotes: an optional sign and decimal digits, else NaN. */
  function DecimalValue(t: string): (r: JsNumber)
    ensures r.NaN? <==> !SignedDigits(t)
    ensures AllDigits(t) ==> r == Finite(DigitsValue(t))
    ensures |t| >= 2 && AllDigits(t[1..]) ==>
      (t[0] == '+' ==> r == Finite(DigitsValue(t[1..]))) && (t[0] == '-' ==> r == Finite(-(DigitsValue(t[1..]) as int)))
  {
    if AllDigits(t) then Finite(DigitsValue(t))
    else if |t| >= 2 && t[0] == '+' && AllDigits(t[1..]) then Finite(DigitsValue(t[1..]))
    else if |t| >= 2 && t[0] == '-' && AllDigits(t[1..]) then Finite(-(DigitsValue(t[1..]) as int))
    else NaN
  }

  /**
   * `Number(v)` for a form value: null and the blank string give 0, a signed decimal
   * integer (surrounded by white space or not) gives its value, anything else NaN.
   */
  function Number(v: Option<string>): (r: JsNumber)
    ensures v.None? ==> r == Finite(0)
    ensures v.Some? && TrimEnd(TrimStart(v.value)) == "" ==> r == Finite(0)
    ensures v.Some? && AllDigits(v.value) ==> r == Finite(DigitsValue(v.value))
    ensures r.NaN? <==> v.Some? && TrimEnd(TrimStart(v.value)) != "" && !SignedDigits(TrimEnd(TrimStart(v.value)))
    ensures v.Some? && AllDigits(TrimEnd(TrimStart(v.value))) ==>
      r == Finite(DigitsValue(TrimEnd(TrimStart(v.value))))
    ensures v.Some? && |TrimEnd(TrimStart(v.value))| >= 2 && AllDigits(TrimEnd(TrimStart(v.value))[1..]) ==>
      var t := TrimEnd(TrimStart(v.value));
      (t[0] == '+' ==> r == Finite(DigitsValue(t[1..]))) && (t[0] == '-' ==> r == Finite(-(DigitsValue(t[1..]) as int)))
  {
    match v
    case None => Finite(0)
    case Some(s) =>
      DigitsNeedNoTrim(s);
      var t := TrimEnd(TrimStart(s));
      if t == "" then Finite(0) else DecimalValue(t)
  }

  /** A digit string has no white space to trim. */
  lemma DigitsNeedNoTrim(s: string)
    ensures AllDigits(s) ==> TrimEnd(TrimStart(s)) == s
  {
    if AllDigits(s) {
      assert !IsJsSpace(s[0]) && TrimStart(s) == s;
      assert !IsJsSpace(s[|s| - 1]);
    }
  }

  /** `s.startsWith(prefix)`: `s` is `prefix` followed by the rest of `s`. */
  predicate StartsWith(s: string, prefix: string)
    ensures StartsWith(s, prefix) <==> |prefix| <= |s| && s == prefix + s[|prefix|..]
  {
    |prefix| <= |s| && s[..|prefix|] == prefix
  }

  /** Reading a number back from its digits: `Number` inverts decimal notation. */
  function DecimalString(n: nat): (r: string)
    ensures AllDigits(r)
    ensures DigitsValue(r) == n
  {
    if n < 10 then [('0' as int + n) as char]
    else DecimalString(n / 10) + [('0' as int + n % 10) as char]
  }

  lemma {:induction false} NumberOfDecimalString(n: nat)
    ensures Number(Some(DecimalString(n))) == Finite(n)
  {
    DigitsNeedNoTrim(DecimalString(n));
  }
}
