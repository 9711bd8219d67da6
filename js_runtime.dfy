/**
 * The pieces of the JavaScript runtime and of the libraries that the rate loader and the
 * conversion service rely on: values as they arrive in a request body, truthiness,
 * `String.prototype.trim`, the two foreign parsers (date-fns `parseISO`/`isValid` and
 * `parseFloat`) and floating-point division by a rate.
 */
module JsRuntime {
  import opened Wrappers

  /** A request or record field: missing (`undefined`), a string, or a finite number. */
  datatype JsValue = Undefined | Str(s: string) | Num(n: real)

  /** JavaScript truthiness of a field: `undefined`, `""` and `0` are falsy. */
  predicate Truthy(v: JsValue) {
    match v
    case Undefined => false
    case Str(s) => s != ""
    case Num(n) => n != 0.0
  }

  /** Truthiness of a field that is either absent or a string (`data.GEO?.trim()`, a request `date`). */
  predicate Present(f: Option<string>) {
    f.Some? && f.value != ""
  }

  /**
   * The foreign parsers, passed in rather than re-implemented: `isValidIsoDate(s)` is
   * `isValid(parseISO(s))` from date-fns, and `parseFloat(s)` is JavaScript's `parseFloat`
   * on a string, `None` standing for `NaN`.
   */
  datatype Parsers = Parsers(isValidIsoDate: string -> bool, parseFloat: string -> Option<real>)

  /** `parseFloat` applied to a field: a number parses to itself, `undefined` to `NaN`. */
  function ParseFloat(p: Parsers, v: JsValue): Option<real> {
    match v
    case Undefined => None
    case Str(s) => p.parseFloat(s)
    case Num(n) => Some(n)
  }

  /** The characters `String.prototype.trim` removes: ECMAScript WhiteSpace and LineTerminator. */
  predicate IsWhitespace(c: char) {
    c == '\t' || c == '\n' || c == '\U{000B}' || c == '\U{000C}' || c == '\r' || c == ' '
    || c == '\U{00A0}' || c == '\U{1680}' || ('\U{2000}' <= c <= '\U{200A}')
    || c == '\U{2028}' || c == '\U{2029}' || c == '\U{202F}' || c == '\U{205F}'
    || c == '\U{3000}' || c == '\U{FEFF}'
  }

  /** True when `s` neither starts nor ends with whitespace. */
  predicate Trimmed(s: string) {
    s == [] || (!IsWhitespace(s[0]) && !IsWhitespace(s[|s| - 1]))
  }

  /** `s` without its leading whitespace: the longest suffix that does not start with whitespace. */
  function TrimStart(s: string): (r: string)
    ensures |r| <= |s| && r == s[|s| - |r|..]
    ensures r == [] || !IsWhitespace(r[0])
    ensures forall k :: 0 <= k < |s| - |r| ==> IsWhitespace(s[k])
  {
    if s != [] && IsWhitespace(s[0]) then TrimStart(s[1..]) else s
  }

  /** `s` without its trailing whitespace: the longest prefix that does not end with whitespace. */
  function TrimEnd(s: string): (r: string)
    ensures |r| <= |s| && r == s[..|r|]
    ensures r == [] || !IsWhitespace(r[|r| - 1])
    ensures forall k :: |r| <= k < |s| ==> IsWhitespace(s[k])
  {
    if s != [] && IsWhitespace(s[|s| - 1]) then TrimEnd(s[..|s| - 1]) else s
  }

  /** `String.prototype.trim`: `s` with no whitespace left at either end. */
  function Trim(s: string): (r: string)
    ensures Trimmed(r)
    ensures |r| <= |s|
    ensures Trimmed(s) ==> r == s
  {
    var t := TrimStart(s);
    assert Trimmed(s) && s != [] ==> t == s;
    var r := TrimEnd(t);
    assert Trimmed(t) && t != [] ==> r == t;
    assert r != [] ==> r[0] == t[0];
    r
  }

  /** Every character of `w` is whitespace. */
  predicate AllWhitespace(w: string) {
    forall k :: 0 <= k < |w| ==> IsWhitespace(w[k])
  }

  /** Trim removes only whitespace: a whitespace prefix of `s`, then the result, then a whitespace suffix. */
  lemma TrimCutsOnlyWhitespace(s: string)
    ensures exists i, j :: 0 <= i <= j <= |s| && Trim(s) == s[i..j] && AllWhitespace(s[..i]) && AllWhitespace(s[j..])
  {
    var t := TrimStart(s);
    var i := |s| - |t|;
    var r := TrimEnd(t);
    var j := i + |r|;
    assert t == s[i..];
    assert r == s[i..j];
    assert s[j..] == t[|r|..];
    assert Trim(s) == s[i..j] && AllWhitespace(s[..i]) && AllWhitespace(s[j..]);
  }

  /** Trimming twice is trimming once. */
  lemma TrimIdempotent(s: string)
    ensures Trim(Trim(s)) == Trim(s)
  {
  }

  /** The outcome of JavaScript's `a / b` on finite numbers. */
  datatype Number = Finite(value: real) | Infinity(negative: bool) | NaN

  /**
   * Floating-point division of finite operands, exact on the reals: dividing by zero gives an
   * infinity signed like the dividend, or `NaN` for `0 / 0`.
   */
  function Divide(a: real, b: real): (r: Number)
    ensures r.Finite? <==> b != 0.0
    ensures r.Finite? ==> r.value * b == a
    ensures r.NaN? <==> a == 0.0 && b == 0.0
    ensures r.Infinity? ==> r.negative == (a < 0.0)
  {
    if b != 0.0 then Finite(a / b)
    else if a == 0.0 then NaN
    else Infinity(a < 0.0)
  }
}
