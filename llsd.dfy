/**
 * LLSD values as the certificate code uses them: the structured property maps
 * a certificate exposes, the pattern maps handed to `find`, and the
 * validation parameters.  Only the kinds those maps hold are modelled.
 */
module LLSD {

  datatype V =
    | Undef
    | Bool(b: bool)
    | Int(i: int)
    | Str(s: string)
    | Date(secs: int)          // an LLDate, in whole seconds since the epoch
    | Arr(a: seq<V>)
    | Map(m: map<string, V>)

  /** The LLSD type tag: two values of different kinds never compare equal. */
  function Kind(v: V): nat
  {
    match v
    case Undef => 0
    case Bool(_) => 1
    case Int(_) => 2
    case Str(_) => 3
    case Date(_) => 4
    case Arr(_) => 5
    case Map(_) => 6
  }

  function DigitChar(d: nat): (c: char)
    requires d < 10
    ensures '0' <= c <= '9'
  {
    "0123456789"[d]
  }

  /** Decimal rendering of a natural number, most significant digit first. */
  function NatToString(n: nat): (r: string)
    ensures |r| >= 1 && '0' <= r[0] <= '9'
    ensures n >= 10 ==> |r| >= 2
  {
    if n < 10 then [DigitChar(n)] else NatToString(n / 10) + [DigitChar(n % 10)]
  }

  function IntToString(i: int): string
  {
    if i < 0 then "-" + NatToString(-i) else NatToString(i)
  }

  lemma {:induction false} NatToStringInjective(x: nat, y: nat)
    requires NatToString(x) == NatToString(y)
    ensures x == y
  {
    if x >= 10 && y >= 10 {
      var sx, sy := NatToString(x), NatToString(y);
      assert sx[..|sx| - 1] == NatToString(x / 10);
      assert sy[..|sy| - 1] == NatToString(y / 10);
      NatToStringInjective(x / 10, y / 10);
      assert DigitChar(x % 10) == sx[|sx| - 1] == sy[|sy| - 1] == DigitChar(y % 10);
    } else if x < 10 && y < 10 {
      assert DigitChar(x) == NatToString(x)[0];
    }
  }

  lemma IntToStringInjective(x: int, y: int)
    requires IntToString(x) == IntToString(y)
    ensures x == y
  {
    var sx, sy := NatToString(if x < 0 then -x else x), NatToString(if y < 0 then -y else y);
    if x < 0 && y < 0 {
      assert ("-" + sx)[1..] == sx;
      assert ("-" + sy)[1..] == sy;
      NatToStringInjective(-x, -y);
    } else if x >= 0 && y >= 0 {
      NatToStringInjective(x, y);
    }
  }

  /**
   * LLSD::asString for the kinds modelled.  Booleans render as "true" or ""
   * (LLSD's own convention), arrays, maps and undefined as "".  A date is
   * rendered by its second count (LLSD renders ISO-8601; only injectivity on
   * dates matters here).
   */
  function AsString(v: V): string
  {
    match v
    case Undef => ""
    case Bool(b) => if b then "true" else ""
    case Int(i) => IntToString(i)
    case Str(s) => s
    case Date(d) => IntToString(d)
    case Arr(_) => ""
    case Map(_) => ""
  }

  /** LLSD::asBoolean */
  function AsBoolean(v: V): bool
  {
    match v
    case Bool(b) => b
    case Int(i) => i != 0
    case Str(s) => s != ""
    case _ => false
  }

  predicate IsDigit(c: char)
  {
    '0' <= c <= '9'
  }

  /** The number of decimal digits at the start of `s`. */
  function LeadingDigits(s: string): (k: nat)
    ensures k <= |s|
    ensures forall i | 0 <= i < k :: IsDigit(s[i])
    ensures k < |s| ==> !IsDigit(s[k])
  {
    if s != [] && IsDigit(s[0]) then 1 + LeadingDigits(s[1..]) else 0
  }

  /** The value of a string of decimal digits, most significant first. */
  function DigitsValue(s: string): nat
    requires forall i | 0 <= i < |s| :: IsDigit(s[i])
  {
    if s == [] then 0
    else
      assert IsDigit(s[|s| - 1]);
      10 * DigitsValue(s[..|s| - 1]) + (s[|s| - 1] as int - '0' as int)
  }

  /**
   * The numeric reading of a string: an optional minus sign and the
   * decimal digits that follow it, anything after them ignored; no digits
   * read as 0.
   */
  function ParseInt(s: string): int
  {
    if s != [] && s[0] == '-' then -(DigitsValue(s[1..][..LeadingDigits(s[1..])]) as int)
    else DigitsValue(s[..LeadingDigits(s)])
  }

  lemma DigitCharValue(d: nat)
    requires d < 10
    ensures DigitChar(d) as int - '0' as int == d
  {
  }

  /** The decimal form of a number is all digits and reads back as the number. */
  lemma {:induction false} NatToStringDigits(n: nat)
    ensures forall i | 0 <= i < |NatToString(n)| :: IsDigit(NatToString(n)[i])
    ensures DigitsValue(NatToString(n)) == n
  {
    var r := NatToString(n);
    if n < 10 {
      DigitCharValue(n);
      assert r[..|r| - 1] == [];
    } else {
      NatToStringDigits(n / 10);
      DigitCharValue(n % 10);
      assert r[..|r| - 1] == NatToString(n / 10);
    }
  }

  /** A string of digits only is read whole. */
  lemma ParseDigits(r: string)
    requires forall i | 0 <= i < |r| :: IsDigit(r[i])
    ensures ParseInt(r) == DigitsValue(r)
    ensures ParseInt("-" + r) == -(DigitsValue(r) as int)
  {
    assert r == [] || r[0] != '-';
    assert LeadingDigits(r) == |r| && r[..|r|] == r;
    var t := "-" + r;
    assert t[0] == '-' && t[1..] == r;
  }

  /** Parsing the decimal form of a natural number gives the number back. */
  lemma ParseNatToString(n: nat)
    ensures ParseInt(NatToString(n)) == n
  {
    NatToStringDigits(n);
    ParseDigits(NatToString(n));
  }

  /** Parsing the string form of any integer gives the integer back. */
  lemma ParseIntToString(i: int)
    ensures ParseInt(IntToString(i)) == i
  {
    var n: nat := if i < 0 then -i else i;
    NatToStringDigits(n);
    ParseDigits(NatToString(n));
  }

  /**
   * LLSD::asInteger: a boolean is 0 or 1, a string is read as a number
   * by ParseInt, a date is its second count, anything else is 0.
   */
  function AsInteger(v: V): (r: int)
    ensures v.Str? ==> r == ParseInt(v.s)
    ensures v.Int? ==> r == v.i
  {
    match v
    case Bool(b) => if b then 1 else 0
    case Int(i) => i
    case Str(s) => ParseInt(s)
    case Date(d) => d
    case _ => 0
  }

  /** LLSD::asDate (a string is not parsed: it reads as the epoch) */
  function AsDate(v: V): int
  {
    match v
    case Date(d) => d
    case _ => 0
  }

  /** LLSD::has: only a map has keys. */
  predicate Has(v: V, key: string)
  {
    v.Map? && key in v.m
  }

  /** const LLSD::operator[]: a missing key reads as undefined. */
  function Get(v: V, key: string): (r: V)
    ensures !Has(v, key) ==> r == Undef
  {
    if Has(v, key) then v.m[key] else Undef
  }

  /**
   * valueCompareLLSD: false on a kind mismatch; maps need the same key sets
   * and pairwise-equal values; arrays need equal length and element-wise
   * equality; every other kind compares by string form.
   */
  function ValueCompare(lhs: V, rhs: V): bool
  {
    if Kind(lhs) != Kind(rhs) then false
    else match lhs
      case Map(lm) =>
        (forall k | k in lm :: k in rhs.m) &&
        (forall k | k in rhs.m :: k in lm && ValueCompare(lm[k], rhs.m[k]))
      case Arr(la) =>
        |la| == |rhs.a| && forall i | 0 <= i < |la| :: ValueCompare(la[i], rhs.a[i])
      case _ => AsString(lhs) == AsString(rhs)
  }

  /** valueCompareLLSD is exactly structural equality. */
  lemma {:induction false} ValueCompareIsEquality(lhs: V, rhs: V)
    ensures ValueCompare(lhs, rhs) <==> lhs == rhs
  {
    if Kind(lhs) == Kind(rhs) {
      match lhs
      case Map(lm) =>
        var rm := rhs.m;
        forall k | k in lm && k in rm
          ensures ValueCompare(lm[k], rm[k]) <==> lm[k] == rm[k]
        {
          ValueCompareIsEquality(lm[k], rm[k]);
        }
        if ValueCompare(lhs, rhs) {
          assert lm.Keys == rm.Keys;
          assert lm == rm;
        }
      case Arr(la) =>
        var ra := rhs.a;
        forall i | 0 <= i < |la| && i < |ra|
          ensures ValueCompare(la[i], ra[i]) <==> la[i] == ra[i]
        {
          ValueCompareIsEquality(la[i], ra[i]);
        }
        if ValueCompare(lhs, rhs) {
          assert la == ra;
        }
      case Int(x) =>
        if ValueCompare(lhs, rhs) { IntToStringInjective(x, rhs.i); }
      case Date(x) =>
        if ValueCompare(lhs, rhs) { IntToStringInjective(x, rhs.secs); }
      case Bool(x) =>
        assert ValueCompare(lhs, rhs) ==> (x <==> rhs.b);
      case Str(_) =>
      case Undef =>
    }
  }

  lemma ValueCompareIsEqualityAll()
    ensures forall l: V, r: V {:trigger ValueCompare(l, r)} :: ValueCompare(l, r) <==> l == r
  {
    forall l: V, r: V ensures ValueCompare(l, r) <==> l == r {
      ValueCompareIsEquality(l, r);
    }
  }

  lemma ValueCompareReflexive(v: V)
    ensures ValueCompare(v, v)
  {
    ValueCompareIsEquality(v, v);
  }

  lemma ValueCompareSymmetric(l: V, r: V)
    ensures ValueCompare(l, r) == ValueCompare(r, l)
  {
    ValueCompareIsEquality(l, r);
    ValueCompareIsEquality(r, l);
  }

  /** _LLSDArrayIncludesValue: some element of the array compares equal. */
  function ArrayIncludesValue(arr: V, value: V): (r: bool)
    ensures r <==> arr.Arr? && value in arr.a
  {
    ValueCompareIsEqualityAll();
    arr.Arr? && exists i | 0 <= i < |arr.a| :: ValueCompare(arr.a[i], value)
  }
}
