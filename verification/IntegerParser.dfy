/** Parsing integers with saturation (il2c_wtoi32 in IL2C.Runtime/src/Platform/strings.c). */
module IntegerParser {
  import opened Arithmetic
  import opened Wrappers
  import opened IntegerText

  datatype Errno = NoError | Invalid | OutOfRange

  /** The first terminator at or behind i. */
  ghost predicate HasTerminator(s: seq<char>, i: nat) { exists j :: i <= j < |s| && s[j] == NUL }

  // ---------------------------------------------------------------------------------------------
  // What a text means

  function SkipBlanks(s: seq<char>, i: nat): (j: nat)
    requires HasTerminator(s, i)
    ensures i <= j < |s| && s[j] != ' ' && HasTerminator(s, j)
    decreases |s| - i
  {
    if s[i] == ' ' then SkipBlanks(s, i + 1) else i
  }

  function SkipSign(s: seq<char>, i: nat): (j: nat)
    requires HasTerminator(s, i)
    ensures i <= j < |s| && HasTerminator(s, j)
  {
    if s[i] == '-' || s[i] == '+' then i + 1 else i
  }

  predicate HasPrefix(s: seq<char>, i: nat, radix: nat)
    requires HasTerminator(s, i)
  {
    (radix == 0 || radix == 16) && s[i] == '0' && (s[i + 1] == 'x' || s[i + 1] == 'X')
  }

  function SkipPrefix(s: seq<char>, i: nat, radix: nat): (j: nat)
    requires HasTerminator(s, i)
    ensures i <= j < |s| && HasTerminator(s, j)
  {
    if HasPrefix(s, i, radix) then i + 2 else i
  }

  function EffectiveRadix(s: seq<char>, i: nat, radix: nat): (r: nat)
    requires HasTerminator(s, i) && (radix == 0 || 2 <= radix <= 36)
    ensures 2 <= r <= 36
  {
    if HasPrefix(s, i, radix) then 16 else if radix != 0 then radix else if s[i] == '0' then 8 else 10
  }

  predicate IsDigit(c: char, radix: nat) { 0 <= DigitValue(c) < radix }

  function DigitsEnd(s: seq<char>, i: nat, radix: nat): (j: nat)
    requires HasTerminator(s, i)
    ensures i <= j < |s| && !IsDigit(s[j], radix) && (forall k :: i <= k < j ==> IsDigit(s[k], radix)) && HasTerminator(s, j)
    decreases |s| - i
  {
    if IsDigit(s[i], radix) then DigitsEnd(s, i + 1, radix) else i
  }

  /** LONG_MIN for a given LONG_MAX. */
  function LongMin(longMax: nat): int {
    var m: int := longMax;
    -m - 1
  }

  function Clamp(x: int, longMax: nat): int {
    if x > longMax then longMax else if x < LongMin(longMax) then LongMin(longMax) else x
  }

  /** Blanks, sign, prefix, then the longest run of digits; the value clamped to long; no digits means no conversion. */
  function Parsed(s: seq<char>, radix: int, longMax: nat): (int, Option<nat>, Errno)
    requires HasTerminator(s, 0)
  {
    if radix != 0 && !(2 <= radix <= 36) then (0, None, Invalid) else
    var blanks := SkipBlanks(s, 0);
    var sign := SkipSign(s, blanks);
    var start := SkipPrefix(s, sign, radix);
    var r := EffectiveRadix(s, sign, radix);
    var end := DigitsEnd(s, start, r);
    var n := NumberOf(s[start..end], r);
    var exact := if s[blanks] == '-' then -n else n;
    (Clamp(exact, longMax), Some(if start < end then end else 0), if Clamp(exact, longMax) == exact then NoError else OutOfRange)
  }

  // ---------------------------------------------------------------------------------------------
  // Arithmetic of the overflow test

  /** Division and remainder of C, truncating toward zero. */
  function TruncDiv(a: int, b: int): int
    requires b != 0
  {
    if a < 0 then -(-a / b) else a / b
  }

  function Abs(a: int): nat { if a < 0 then -a else a }

  /** q is the quotient of C and C#: what it leaves of the dividend is smaller than the divisor and has the dividend's sign. */
  predicate IsQuotient(a: int, b: int, q: int) {
    var r := a - q * b;
    Abs(r) < Abs(b) && (r == 0 || (r > 0 <==> a > 0))
  }

  lemma EuclideanDivision(n: int, b: int)
    requires b != 0
    ensures n == (n / b) * b + n % b && 0 <= n % b < Abs(b) && (n == 0 ==> n % b == 0)
  {
  }

  lemma TruncDivMeaning(a: int, b: int)
    requires b != 0
    ensures IsQuotient(a, b, TruncDiv(a, b))
  {
    var n: int := Abs(a);
    EuclideanDivision(n, b);
    QuotientFrom(a, b, n / b, n % b);
  }

  lemma QuotientFrom(a: int, b: int, m: int, s: int)
    requires Abs(a) == m * b + s && 0 <= s < Abs(b) && (a == 0 ==> s == 0)
    ensures IsQuotient(a, b, if a < 0 then -m else m)
  {
    if a < 0 {
      NegatedFactor(m, b);
      assert a - (-m) * b == -s;
    } else {
      assert a - m * b == s;
    }
  }

  lemma NegatedFactor(m: int, b: int)
    ensures (-m) * b == -(m * b)
  {
  }

  lemma QuotientIsUnique(a: int, b: int, p: int, q: int)
    requires IsQuotient(a, b, p) && IsQuotient(a, b, q)
    ensures p == q
  {
    var c := Abs(b);
    assert (p - q) * b == (a - q * b) - (a - p * b);
    assert -(c as int) < (p - q) * b < c;
    assert (p - q) * c == if b < 0 then -((p - q) * b) else (p - q) * b;
    Multiples(p - q, c);
  }

  function TruncMod(a: int, b: nat): int
    requires b > 0
  {
    if a < 0 then -(-a % b) else a % b
  }

  /** Comparing against quotient and remainder of the limit decides overflow before it happens. */
  lemma Saturates(m: nat, radix: nat, a: nat, i: nat)
    requires radix > 0 && i < radix
    ensures a > m / radix || (a == m / radix && i > m % radix) <==> a * radix + i > m
  {
    var q, r := m / radix, m % radix;
    assert m == q * radix + r;
    if a > q {
      assert a * radix >= (q + 1) * radix by { MulMonotone(q + 1, a, radix); }
      assert (q + 1) * radix == q * radix + radix;
    } else if a < q {
      assert (a + 1) * radix <= q * radix by { MulMonotone(a + 1, q, radix); }
      assert (a + 1) * radix == a * radix + radix;
    }
  }

  lemma {:induction false} NotNegative(ds: seq<char>, radix: nat)
    requires AreDigits(ds, radix)
    ensures NumberOf(ds, radix) >= 0
  {
    if ds != [] {
      NotNegative(ds[..|ds| - 1], radix);
      MulMonotone(0, NumberOf(ds[..|ds| - 1], radix), radix);
    }
  }

  lemma Grows(n: nat, radix: nat, d: nat)
    requires radix >= 1
    ensures n * radix + d >= n
  {
    MulMonotone(1, radix, n);
  }

  /** One more digit never makes a number smaller. */
  lemma {:induction false} NextNumber(ds: seq<char>, c: char, radix: nat)
    requires AreDigits(ds, radix) && IsDigit(c, radix)
    ensures NumberOf(ds + [c], radix) == NumberOf(ds, radix) * radix + DigitValue(c)
    ensures NumberOf(ds + [c], radix) >= NumberOf(ds, radix) >= 0
  {
    hide NumberOf, DigitValue, AreDigits;
    Snoc(ds, c, radix);
    NotNegative(ds, radix);
    Grows(NumberOf(ds, radix), radix, DigitValue(c));
  }

  // ---------------------------------------------------------------------------------------------
  // The loop

  /** The limits of the overflow test, computed as the C code does. */
  method Limits(neg: bool, radix: nat, longMax: nat) returns (cutoff: int, cutlim: int)
    requires radix > 0
    ensures
      var m := if neg then longMax + 1 else longMax;
      cutoff == (if neg then -(m / radix) else m / radix) && cutlim == m % radix
  {
    cutoff := if neg then LongMin(longMax) else longMax;
    cutlim := TruncMod(cutoff, radix);
    cutoff := TruncDiv(cutoff, radix);
    if neg {
      if cutlim > 0 {
        cutlim := cutlim - radix;
        cutoff := cutoff + 1;
      }
      cutlim := -cutlim;
    }
  }

  /** The accumulator after some digits with value n: exact while in range, clamped from then on. */
  predicate Accumulated(acc: int, any: int, errno: Errno, neg: bool, n: nat, longMax: nat) {
    var exact: int := if neg then 0 - n else n;
    && acc == Clamp(exact, longMax)
    && errno == (if acc == exact then NoError else OutOfRange)
    && (any >= 0 <==> acc == exact)
  }

  /** One digit: the number becomes n * radix + i. */
  method AddDigit(acc: int, any: int, errno: Errno, i: nat, neg: bool, cutoff: int, cutlim: int, radix: nat, longMax: nat,
                  ghost n: nat)
    returns (acc': int, any': int, errno': Errno)
    requires radix > i && Accumulated(acc, any, errno, neg, n, longMax)
    requires
      var m := if neg then longMax + 1 else longMax;
      cutoff == (if neg then -(m / radix) else m / radix) && cutlim == m % radix
    ensures n * radix + i >= n && Accumulated(acc', any', errno', neg, n * radix + i, longMax) && any' != 0
  {
    acc', any', errno' := acc, any, errno;
    Grows(n, radix, i);
    if any < 0 {
      return;
    }
    Saturates(if neg then longMax + 1 else longMax, radix, n, i);
    if neg {
      assert acc * radix == -(n * radix) by { assert acc == -(n as int); Negated(n, radix); }
      if acc < cutoff || (acc == cutoff && i > cutlim) {
        any', acc', errno' := -1, LongMin(longMax), OutOfRange;
      } else {
        any' := 1;
        acc' := acc * radix;
        acc' := acc' - i;
      }
    } else {
      if acc > cutoff || (acc == cutoff && i > cutlim) {
        any', acc', errno' := -1, longMax, OutOfRange;
      } else {
        any' := 1;
        acc' := acc * radix;
        acc' := acc' + i;
      }
    }
  }

  /** Accumulates digits until one is missing; once out of range it only skips digits. */
  method Accumulate(s: seq<char>, start: nat, neg: bool, radix: nat, longMax: nat) returns (acc: int, end: nat, any: int, errno: Errno)
    requires HasTerminator(s, start) && 2 <= radix <= 36
    ensures end == DigitsEnd(s, start, radix)
    ensures any == 0 <==> end == start
    ensures
      var n := NumberOf(s[start..end], radix);
      var exact: int := if neg then 0 - n else n;
      acc == Clamp(exact, longMax) && errno == if acc == exact then NoError else OutOfRange
  {
    hide DigitsEnd, DigitValue, NumberOf, AreDigits, Clamp;
    var cutoff, cutlim := Limits(neg, radix, longMax);
    acc, any, end, errno := 0, 0, start, NoError;
    ghost var n: nat := 0;
    NoDigits(s, start, radix, neg, longMax);
    while true
      invariant start <= end < |s| && HasTerminator(s, end) && DigitsEnd(s, end, radix) == DigitsEnd(s, start, radix)
      invariant AreDigits(s[start..end], radix) && n == NumberOf(s[start..end], radix)
      invariant any == 0 <==> end == start
      invariant Accumulated(acc, any, errno, neg, n, longMax)
      decreases |s| - end
    {
      var i := DigitValue(s[end]);
      DigitsStep(s, start, end, radix);
      if i == -1 { break; }
      if i >= radix { break; }
      acc, any, errno := AddDigit(acc, any, errno, i, neg, cutoff, cutlim, radix, longMax, n);
      n := n * radix + i;
      end := end + 1;
    }
  }

  lemma {:induction false} NoDigits(s: seq<char>, start: nat, radix: nat, neg: bool, longMax: nat)
    requires start <= |s|
    ensures AreDigits(s[start..start], radix) && NumberOf(s[start..start], radix) == 0
    ensures Accumulated(0, 0, NoError, neg, 0, longMax)
  {
    assert s[start..start] == [];
  }

  lemma {:induction false} DigitsStep(s: seq<char>, start: nat, end: nat, radix: nat)
    requires start <= end < |s| && HasTerminator(s, end) && 2 <= radix <= 36 && AreDigits(s[start..end], radix)
    ensures DigitValue(s[end]) >= -1
    ensures !IsDigit(s[end], radix) ==> DigitsEnd(s, end, radix) == end
    ensures IsDigit(s[end], radix) ==>
              && end + 1 < |s| && HasTerminator(s, end + 1) && DigitsEnd(s, end, radix) == DigitsEnd(s, end + 1, radix)
              && AreDigits(s[start..end + 1], radix)
              && NumberOf(s[start..end + 1], radix) == NumberOf(s[start..end], radix) * radix + DigitValue(s[end])
              && NumberOf(s[start..end + 1], radix) >= NumberOf(s[start..end], radix) >= 0
  {
    if IsDigit(s[end], radix) {
      assert s[start..end + 1] == s[start..end] + [s[end]];
      NextNumber(s[start..end], s[end], radix);
    }
  }

  method SkipSpaces(s: seq<char>) returns (at: nat)
    requires HasTerminator(s, 0)
    ensures at == SkipBlanks(s, 0)
  {
    at := 0;
    while s[at] == ' '
      invariant at < |s| && HasTerminator(s, at) && SkipBlanks(s, at) == SkipBlanks(s, 0)
      decreases |s| - at
    {
      at := at + 1;
    }
  }

  /** A hexadecimal prefix where it is allowed, and the radix that a zero stands for. */
  method DetectRadix(s: seq<char>, at: nat, radix: nat) returns (start: nat, r: nat)
    requires HasTerminator(s, at) && (radix == 0 || 2 <= radix <= 36)
    ensures start == SkipPrefix(s, at, radix) && r == EffectiveRadix(s, at, radix)
  {
    start, r := at, radix;
    if (r == 0 || r == 16) && s[at] == '0' && (s[at + 1] == 'x' || s[at + 1] == 'X') {
      start := at + 2;
      r := 16;
    }
    if r == 0 { r := if s[at] == '0' then 8 else 10; }
  }

  /** il2c_wtoi32 */
  method ParseLong(s: seq<char>, radix: int, longMax: nat) returns (value: int, endptr: Option<nat>, errno: Errno)
    requires HasTerminator(s, 0)
    ensures (value, endptr, errno) == Parsed(s, radix, longMax)
  {
    hide NumberOf, DigitsEnd, Clamp, DigitValue, SkipBlanks, SkipPrefix, EffectiveRadix;
    if radix != 0 && (radix < 2 || radix > 36) {
      return 0, None, Invalid;
    }
    var at := SkipSpaces(s);
    var neg := s[at] == '-';
    if s[at] == '-' || s[at] == '+' { at := at + 1; }
    var start, r := DetectRadix(s, at, radix);
    var end, any;
    value, end, any, errno := Accumulate(s, start, neg, r, longMax);
    endptr := Some(if any != 0 then end else 0);
  }

  /** Parsing what il2c_i32tow printed gives the number back, with the end pointer at the terminator. */
  lemma RoundTrip(v: int, s: seq<char>, longMax: nat)
    requires Min(I32) <= v <= Max(I32) && longMax >= Max(I32)
    requires |Text(v, I32, 10)| < |s| && s[..|Text(v, I32, 10)|] == Text(v, I32, 10) && s[|Text(v, I32, 10)|] == NUL
    ensures HasTerminator(s, 0) && Parsed(s, 10, longMax) == (v, Some(|Text(v, I32, 10)|), NoError)
  {
    hide Digits, NumberOf, DigitValue, DigitsEnd;
    var text := Text(v, I32, 10);
    var n := if v < 0 then -v else v;
    var start := if v < 0 then 1 else 0;
    var ds := Digits(n, 10);
    DigitsDenote(n, 10);
    assert s[start..|text|] == ds;
    assert HasTerminator(s, 0) && HasTerminator(s, start);
    FirstDigit(ds, 10);
    assert s[start] == ds[0];
    assert SkipBlanks(s, 0) == 0;
    DigitsRun(s, start, |text|, 10);
  }

  lemma FirstDigit(ds: seq<char>, radix: nat)
    requires AreDigits(ds, radix) && ds != []
    ensures ds[0] != ' ' && ds[0] != '-' && ds[0] != '+'
  {
  }

  lemma {:induction false} DigitsRun(s: seq<char>, i: nat, j: nat, radix: nat)
    requires i <= j < |s| && s[j] == NUL && AreDigits(s[i..j], radix)
    ensures HasTerminator(s, i) && DigitsEnd(s, i, radix) == j
    decreases j - i
  {
    assert HasTerminator(s, i);
    if i < j {
      assert IsDigit(s[i..j][0], radix);
      assert s[i + 1..j] == s[i..j][1..];
      DigitsRun(s, i + 1, j, radix);
    }
  }

  /** A text in parts: blanks, a sign or none, a hexadecimal prefix or none, digits, and something that is no digit. */
  datatype Parts = Parts(blanks: seq<char>, sign: seq<char>, prefix: seq<char>, digits: seq<char>, rest: seq<char>)

  function Joined(p: Parts): seq<char> { p.blanks + p.sign + p.prefix + p.digits + p.rest }

  /** How section 7.24.4.1.2 of ISO C99 wants such a text to be read in a base: which parts are possible, and in which radix
      the digits stand. */
  ghost predicate IsReadAs(p: Parts, base: nat, radix: nat) {
    && (base == 0 || 2 <= base <= 36)
    && (forall i :: 0 <= i < |p.blanks| ==> p.blanks[i] == ' ')
    && (p.sign == [] || p.sign == ['+'] || p.sign == ['-'])
    && p.digits != [] && AreDigits(p.digits, radix)
    && HasTerminator(p.rest, 0) && !IsDigit(p.rest[0], radix)
    && (p.prefix == ['0', 'x'] || p.prefix == ['0', 'X'] ==> (base == 0 || base == 16) && radix == 16)
    && (p.prefix == [] ==>
          && radix == (if base != 0 then base else if p.digits[0] == '0' then 8 else 10)
          && ((base == 0 || base == 16) && p.digits[0] == '0' ==> var c := (p.digits + p.rest)[1]; c != 'x' && c != 'X'))
    && (p.prefix == [] || p.prefix == ['0', 'x'] || p.prefix == ['0', 'X'])
  }

  /** Every text of that form is read as its digits with its sign, clamped to long, up to the end of the digits. */
  lemma {:induction false} Reading(p: Parts, base: nat, radix: nat, longMax: nat)
    requires IsReadAs(p, base, radix)
    ensures HasTerminator(Joined(p), 0)
    ensures
      var n := NumberOf(p.digits, radix);
      var exact := if p.sign == ['-'] then -n else n;
      Parsed(Joined(p), base, longMax) ==
      (Clamp(exact, longMax), Some(|p.blanks| + |p.sign| + |p.prefix| + |p.digits|),
       if Clamp(exact, longMax) == exact then NoError else OutOfRange)
  {
    hide NumberOf, DigitValue, Clamp, SkipBlanks, DigitsEnd, Joined, IsDigit, SkipPrefix, EffectiveRadix, SkipSign;
    var s := Joined(p);
    var b, c := |p.blanks|, |p.blanks| + |p.sign|;
    var d := c + |p.prefix|;
    PartsPlaces(p, base, radix);
    BlanksRun(s, 0, b);
    SignAndPrefix(p, s, base, radix);
    DigitsStop(s, d, d + |p.digits|, radix);
  }

  lemma SignAndPrefix(p: Parts, s: seq<char>, base: nat, radix: nat)
    requires IsReadAs(p, base, radix) && s == Joined(p)
    ensures
      var b, c := |p.blanks|, |p.blanks| + |p.sign|;
      && c < |s| && HasTerminator(s, b) && HasTerminator(s, c) && SkipSign(s, b) == c && (s[b] == '-' <==> p.sign == ['-'])
      && SkipPrefix(s, c, base) == c + |p.prefix| && EffectiveRadix(s, c, base) == radix
  {
    hide DigitValue, Joined, IsDigit;
    PartsPlaces(p, base, radix);
    var c := |p.blanks| + |p.sign|;
    assert HasPrefix(s, c, base) <==> p.prefix != [];
  }

  /** Where the parts lie in the text. */
  lemma PartsPlaces(p: Parts, base: nat, radix: nat)
    requires IsReadAs(p, base, radix)
    ensures
      var s, b, c := Joined(p), |p.blanks|, |p.blanks| + |p.sign|;
      var d := c + |p.prefix|;
      var e := d + |p.digits|;
      && b <= c <= d < e < |s| && HasTerminator(s, 0) && HasTerminator(s, b) && HasTerminator(s, c) && HasTerminator(s, d) && HasTerminator(s, e)
      && (forall i :: 0 <= i < b ==> s[i] == ' ') && s[b] != ' '
      && (if p.sign == [] then s[b] != '+' && s[b] != '-' else s[b] == p.sign[0])
      && (p.prefix != [] ==> s[c] == '0' && s[c + 1] == p.prefix[1])
      && (p.prefix == [] ==> s[c] == p.digits[0] && s[c + 1] == (p.digits + p.rest)[1])
      && s[d..e] == p.digits && s[e] == p.rest[0]
  {
    hide DigitValue;
    var s, e := Joined(p), |p.blanks| + |p.sign| + |p.prefix| + |p.digits|;
    FirstDigit(p.digits, radix);
    var j :| 0 <= j < |p.rest| && p.rest[j] == NUL;
    assert s[e + j] == NUL;
    assert s[e..] == p.rest;
    if p.prefix == [] { assert s[|p.blanks| + |p.sign|..] == p.digits + p.rest; }
  }

  lemma {:induction false} BlanksRun(s: seq<char>, i: nat, j: nat)
    requires HasTerminator(s, i) && i <= j < |s| && (forall k :: i <= k < j ==> s[k] == ' ') && s[j] != ' '
    ensures SkipBlanks(s, i) == j
    decreases j - i
  {
    if i < j {
      assert HasTerminator(s, i + 1);
      BlanksRun(s, i + 1, j);
    }
  }

  lemma {:induction false} DigitsStop(s: seq<char>, i: nat, j: nat, radix: nat)
    requires HasTerminator(s, i) && i <= j < |s| && AreDigits(s[i..j], radix) && !IsDigit(s[j], radix)
    ensures DigitsEnd(s, i, radix) == j
    decreases j - i
  {
    hide DigitValue;
    if i < j {
      assert IsDigit(s[i..j][0], radix);
      assert s[i + 1..j] == s[i..j][1..];
      assert HasTerminator(s, i + 1) by { NulIsNoDigit(s, i, radix); }
      DigitsStop(s, i + 1, j, radix);
    }
  }

  lemma NulIsNoDigit(s: seq<char>, i: nat, radix: nat)
    requires HasTerminator(s, i) && IsDigit(s[i], radix)
    ensures HasTerminator(s, i + 1)
  {
  }
}
