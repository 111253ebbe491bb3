/**
 * Scalar cell values and the few Python built-ins the pipeline applies to them:
 * `str.strip`, `str.lower`, `int(...)`, `float(...)`, `str(...)` and truthiness.
 * A cell is a string, an integer, or NaN; floats other than NaN are not modelled.
 */
module Values {
  import opened Wrappers

  /** A table cell. `Missing` is pandas' NaN (and a NULL column in the store). */
  datatype Value = Str(s: string) | Int(i: int) | Missing

  /** The Python exceptions the modelled code can raise. */
  datatype PyError =
    | KeyError(key: string)          // a column label that is not in the frame
    | ValueError(input: string)      // int()/float() of text that is not a numeral, or of NaN
    | TypeError(input: string)       // int() of None
    | AttributeError(name: string)   // a method called on a plain int instead of a column
    | IndexError                     // `[0]` of an empty prediction array

  // ---------------------------------------------------------------------------
  // str.strip()

  /** The characters for which Python's `str.isspace()` holds. */
  predicate IsSpace(c: char) {
    || c == ' '
    || ('\U{0009}' <= c <= '\U{000D}')
    || ('\U{001C}' <= c <= '\U{001F}')
    || c == '\U{0085}' || c == '\U{00A0}' || c == '\U{1680}'
    || ('\U{2000}' <= c <= '\U{200A}')
    || c == '\U{2028}' || c == '\U{2029}' || c == '\U{202F}' || c == '\U{205F}' || c == '\U{3000}'
  }

  predicate AllSpace(s: string) {
    forall k :: 0 <= k < |s| ==> IsSpace(s[k])
  }

  /** No whitespace at either end. */
  predicate IsStripped(s: string) {
    s == [] || (!IsSpace(s[0]) && !IsSpace(s[|s| - 1]))
  }

  /** `s.lstrip()`: the suffix left after dropping leading whitespace. */
  function StripStart(s: string): (r: string)
    ensures |r| <= |s| && (r == [] || !IsSpace(r[0]))
  {
    if |s| > 0 && IsSpace(s[0]) then StripStart(s[1..]) else s
  }

  /** `s.rstrip()`: the prefix left after dropping trailing whitespace. */
  function StripEnd(s: string): (r: string)
    ensures |r| <= |s| && r == s[..|r|]
    ensures r == [] || !IsSpace(r[|r| - 1])
  {
    if |s| > 0 && IsSpace(s[|s| - 1]) then StripEnd(s[..|s| - 1]) else s
  }

  /** `s.strip()` */
  function Strip(s: string): (r: string)
    ensures IsStripped(r)
    ensures |r| <= |s|
  {
    var t := StripStart(s);
    var r := StripEnd(t);
    assert r != [] ==> r[0] == t[0];
    r
  }

  lemma {:induction false} StripStartOf(w: string, s: string)
    requires AllSpace(w) && (s == [] || !IsSpace(s[0]))
    ensures StripStart(w + s) == s
  {
    if w != [] {
      assert (w + s)[1..] == w[1..] + s;
      StripStartOf(w[1..], s);
    } else {
      assert w + s == s;
    }
  }

  lemma {:induction false} StripEndOf(s: string, w: string)
    requires AllSpace(w) && (s == [] || !IsSpace(s[|s| - 1]))
    ensures StripEnd(s + w) == s
  {
    if w != [] {
      assert (s + w)[..|s + w| - 1] == s + w[..|w| - 1];
      StripEndOf(s, w[..|w| - 1]);
    } else {
      assert s + w == s;
    }
  }

  /** `strip` removes exactly the surrounding whitespace and nothing else. */
  lemma StripSurrounded(w1: string, s: string, w2: string)
    requires AllSpace(w1) && AllSpace(w2) && IsStripped(s)
    ensures Strip(w1 + s + w2) == s
  {
    assert w1 + s + w2 == w1 + (s + w2);
    if s == [] {
      StripStartOf(w1 + w2, []);
      assert w1 + w2 + [] == w1 + ([] + w2);
      StripEnd0();
    } else {
      assert (s + w2)[0] == s[0];
      StripStartOf(w1, s + w2);
      StripEndOf(s, w2);
    }
  }

  lemma StripEnd0()
    ensures StripEnd([]) == []
  {
  }

  /** Stripping twice is stripping once. */
  lemma StripIdempotent(s: string)
    ensures Strip(Strip(s)) == Strip(s)
  {
    StripSurrounded([], Strip(s), []);
    assert [] + Strip(s) + [] == Strip(s);
  }

  // ---------------------------------------------------------------------------
  // str.lower()

  predicate IsUpper(c: char) { 'A' <= c <= 'Z' }

  function LowerChar(c: char): char {
    if IsUpper(c) then (c as int + 32) as char else c
  }

  /** `s.lower()` on the ASCII letters. */
  function Lower(s: string): (r: string)
    ensures |r| == |s|
    ensures forall k :: 0 <= k < |s| ==> r[k] == LowerChar(s[k])
  {
    if s == [] then [] else [LowerChar(s[0])] + Lower(s[1..])
  }

  lemma LowerHasNoUpper(s: string)
    ensures forall k :: 0 <= k < |s| ==> !IsUpper(Lower(s)[k])
  {
  }

  /** Lower-casing never touches whitespace, so a stripped name stays stripped. */
  lemma LowerKeepsStripped(s: string)
    requires IsStripped(s)
    ensures IsStripped(Lower(s))
  {
  }

  lemma LowerIdempotent(s: string)
    ensures Lower(Lower(s)) == Lower(s)
  {
  }

  // ---------------------------------------------------------------------------
  // int(...) of text, and str(...) of an int

  predicate IsDigit(c: char) { '0' <= c <= '9' }

  predicate AllDigits(s: string) {
    forall k :: 0 <= k < |s| ==> IsDigit(s[k])
  }

  /** The number written in decimal by a string of digits. */
  function DigitsValue(s: string): nat
    requires AllDigits(s)
  {
    if s == [] then 0 else 10 * DigitsValue(s[..|s| - 1]) + (s[|s| - 1] as int - '0' as int)
  }

  /** `int(s)` for a string: surrounding whitespace, an optional sign, then decimal digits. */
  function ParseInt(s: string): (r: Option<int>)
    ensures r.Some? ==> |Strip(s)| > 0
    ensures var t := Strip(s); |t| > 0 && AllDigits(t) ==> r == Some(DigitsValue(t))
    ensures var t := Strip(s); |t| > 1 && t[0] == '-' && AllDigits(t[1..]) ==> r == Some(-(DigitsValue(t[1..]) as int))
    ensures var t := Strip(s); |t| > 1 && t[0] == '+' && AllDigits(t[1..]) ==> r == Some(DigitsValue(t[1..]))
    ensures var t := Strip(s);
      r.Some? ==> AllDigits(t) || (|t| > 1 && (t[0] == '+' || t[0] == '-') && AllDigits(t[1..]))
  {
    var t := Strip(s);
    if |t| > 0 && (t[0] == '+' || t[0] == '-') then
      var d := t[1..];
      if |d| > 0 && AllDigits(d) then
        var m: int := DigitsValue(d);
        Some(if t[0] == '-' then -m else m)
      else None
    else if |t| > 0 && AllDigits(t) then Some(DigitsValue(t))
    else None
  }

  function DigitChar(d: nat): char
    requires d < 10
  {
    ('0' as int + d) as char
  }

  function ShowNat(n: nat): (r: string)
    ensures |r| > 0 && AllDigits(r)
  {
    if n < 10 then [DigitChar(n)] else ShowNat(n / 10) + [DigitChar(n % 10)]
  }

  /** `str(n)` for an int: the decimal digits, after a `-` when the number is negative. */
  function ShowInt(n: int): (r: string)
    ensures n >= 0 ==> |r| > 0 && AllDigits(r)
    ensures n < 0 ==> |r| > 1 && r[0] == '-' && AllDigits(r[1..])
  {
    if n < 0 then "-" + ShowNat(-n) else ShowNat(n)
  }

  lemma {:induction false} DigitsOfShowNat(n: nat)
    ensures DigitsValue(ShowNat(n)) == n
  {
    var r := ShowNat(n);
    if n >= 10 {
      DigitsOfShowNat(n / 10);
      assert r[..|r| - 1] == ShowNat(n / 10);
    }
  }

  lemma StripOfStripped(t: string)
    requires IsStripped(t)
    ensures Strip(t) == t
  {
    StripSurrounded([], t, []);
    assert [] + t + [] == t;
  }

  /** `int(str(n)) == n`. */
  lemma ParseShowInt(n: int)
    ensures ParseInt(ShowInt(n)) == Some(n)
  {
    var t := ShowInt(n);
    if n < 0 {
      var u := ShowNat(-n);
      assert t == "-" + u && t[1..] == u;
      assert IsStripped(t) by { assert t[|t| - 1] == u[|u| - 1]; }
      StripOfStripped(t);
      DigitsOfShowNat(-n);
    } else {
      assert IsDigit(t[0]) && IsDigit(t[|t| - 1]);
      StripOfStripped(t);
      DigitsOfShowNat(n);
    }
  }

  // ---------------------------------------------------------------------------
  // Conversions applied to cells

  /** `int(v)` of a present cell (`astype(int)` applies it element-wise). */
  function IntOf(v: Value): (r: Result<int, PyError>)
    ensures v.Int? ==> r == Success(v.i)
    ensures v.Missing? ==> r.Failure?
    ensures v.Str? ==> (r.Success? <==> ParseInt(v.s).Some?)
    ensures r.Failure? ==> r.error.ValueError?
  {
    match v
    case Int(i) => Success(i)
    case Str(s) => if ParseInt(s).Some? then Success(ParseInt(s).value) else Failure(ValueError(s))
    case Missing => Failure(ValueError("nan"))
  }

  /**
   * `float(v)` of a present cell, on the values this model represents: an
   * integer stays itself, NaN stays NaN, text must be an integer numeral.
   */
  function FloatOf(v: Value): (r: Result<Value, PyError>)
    ensures r.Success? ==> r.value.Int? || r.value.Missing?
    ensures v.Missing? ==> r == Success(Missing)
    ensures v.Int? ==> r == Success(v)
    ensures v.Str? ==> (r.Success? <==> ParseInt(v.s).Some?)
  {
    match v
    case Int(i) => Success(Int(i))
    case Str(s) => if ParseInt(s).Some? then Success(Int(ParseInt(s).value)) else Failure(ValueError(s))
    case Missing => Success(Missing)
  }

  /** `bool(x)` of what `row.get(c)` returns: `None` is false, NaN is true. */
  function Truthy(x: Option<Value>): (b: bool)
    ensures x.None? ==> !b
    ensures x == Some(Missing) ==> b
    ensures x == Some(Int(0)) ==> !b
  {
    match x
    case None => false
    case Some(Missing) => true
    case Some(Int(i)) => i != 0
    case Some(Str(s)) => |s| > 0
  }

  /** `str(v)` of a cell: text as itself, NaN as `nan`, an integer as a numeral `int()` reads back. */
  function ShowValue(v: Value): (r: string)
    ensures v.Str? ==> r == v.s
    ensures v.Missing? ==> r == "nan"
    ensures v.Int? ==> ParseInt(r) == Some(v.i)
  {
    match v
    case Str(s) => s
    case Int(i) => ParseShowInt(i); ShowInt(i)
    case Missing => "nan"
  }
}
