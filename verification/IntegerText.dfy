/** Printing and parsing integers (IL2C.Runtime/src/Platform/strings.c). */
module IntegerText {
  import opened Arithmetic

  /** The four printers by operand type. */
  datatype IntType = I32 | U32 | I64 | U64

  function Width(t: IntType): nat { if t.I32? || t.U32? then 0x1_0000_0000 else 0x1_0000_0000_0000_0000 }
  function Min(t: IntType): int { match t case I32 => -0x8000_0000 case I64 => -0x8000_0000_0000_0000 case _ => 0 }
  function Max(t: IntType): int { Min(t) + Width(t) - 1 }
  function TempLength(t: IntType): nat { if t.I32? || t.U32? then 14 else 24 }

  const NUL: char := '\0'

  function DigitChar(d: nat): char
    requires d < 16
  {
    if d < 10 then ('0' as int + d) as char else ('a' as int + (d - 10)) as char
  }

  /** __wctoint: digits and letters of either case, or -1. */
  function DigitValue(c: char): int {
    if '0' <= c <= '9' then c as int - '0' as int
    else if 'A' <= c <= 'Z' then c as int - 'A' as int + 10
    else if 'a' <= c <= 'z' then c as int - 'a' as int + 10
    else -1
  }

  const SMALL := "0123456789abcdefghijklmnopqrstuvwxyz"
  const CAPITAL := "0123456789ABCDEFGHIJKLMNOPQRSTUVWXYZ"

  /** A digit's value is its place in the alphabet, and nothing else is a digit. */
  lemma DigitValueMeaning(c: char)
    ensures -1 <= DigitValue(c) < 36 == |SMALL| == |CAPITAL|
    ensures forall v :: 0 <= v < 36 ==> (DigitValue(c) == v <==> c == SMALL[v] || c == CAPITAL[v])
  {
    forall v | 0 <= v < 36 ensures DigitValue(c) == v <==> c == SMALL[v] || c == CAPITAL[v] {
      SmallAt(v);
      CapitalAt(v);
    }
  }

  lemma SmallAt(v: nat)
    requires v < 36
    ensures |SMALL| == 36 && SMALL[v] as int == v + (if v < 10 then '0' as int else 'a' as int - 10)
  {
  }

  lemma CapitalAt(v: nat)
    requires v < 36
    ensures |CAPITAL| == 36 && CAPITAL[v] as int == v + (if v < 10 then '0' as int else 'A' as int - 10)
  {
  }

  lemma DigitRoundTrip(d: nat)
    requires d < 16
    ensures DigitValue(DigitChar(d)) == d && DigitChar(d) != NUL && DigitChar(d) != ' ' && DigitChar(d) != '-' && DigitChar(d) != '+'
    ensures DigitChar(d) != 'x' && DigitChar(d) != 'X'
  {
  }

  function Digits(n: nat, radix: nat): (r: seq<char>)
    requires 2 <= radix <= 16
    ensures r != []
    decreases n
  {
    if n < radix then [DigitChar(n)] else Digits(n / radix, radix) + [DigitChar(n % radix)]
  }

  lemma DivisionFacts(n: nat, radix: nat)
    requires radix >= 2
    ensures n == (n / radix) * radix + n % radix && 0 <= n % radix < radix && n / radix >= 0
    ensures n < radix ==> n / radix == 0 && n % radix == n
    ensures n >= radix ==> 0 < n / radix < n
  {
    var q := n / radix;
    if n >= radix {
      assert q > 0;
      assert q * radix >= 2 * q;
    }
  }

  lemma {:induction false} LastDigit(v: nat, radix: nat)
    requires 2 <= radix <= 16
    ensures v < radix ==> v / radix == 0 && Digits(v, radix) == [DigitChar(v % radix)]
    ensures v >= radix ==> Digits(v, radix) == Digits(v / radix, radix) + [DigitChar(v % radix)] && 0 < v / radix < v
  {
    hide DigitChar;
    DivisionFacts(v, radix);
  }

  function NumberOf(ds: seq<char>, radix: nat): int {
    if ds == [] then 0 else NumberOf(ds[..|ds| - 1], radix) * radix + DigitValue(ds[|ds| - 1])
  }

  predicate AreDigits(ds: seq<char>, radix: nat) { forall i :: 0 <= i < |ds| ==> 0 <= DigitValue(ds[i]) < radix }

  lemma {:induction false} Snoc(ds: seq<char>, c: char, radix: nat)
    ensures NumberOf(ds + [c], radix) == NumberOf(ds, radix) * radix + DigitValue(c)
  {
    assert (ds + [c])[..|ds|] == ds;
  }

  /** Digits denote their number. */
  lemma {:induction false} DigitsDenote(n: nat, radix: nat)
    requires 2 <= radix <= 16
    ensures NumberOf(Digits(n, radix), radix) == n && AreDigits(Digits(n, radix), radix)
    ensures NUL !in Digits(n, radix)
    decreases n
  {
    hide DigitChar, DigitValue, Digits, NumberOf;
    LastDigit(n, radix);
    DivisionFacts(n, radix);
    DigitRoundTrip(n % radix);
    if n < radix {
      Snoc([], DigitChar(n), radix);
      assert [] + [DigitChar(n)] == [DigitChar(n)];
      assert NumberOf([], radix) * radix == 0 by { NothingIsZero(radix); }
    } else {
      DigitsDenote(n / radix, radix);
      Snoc(Digits(n / radix, radix), DigitChar(n % radix), radix);
    }
  }

  lemma {:induction false} NothingIsZero(radix: nat)
    ensures NumberOf([], radix) == 0
  {
  }

  function Power(b: nat, k: nat): nat { if k == 0 then 1 else b * Power(b, k - 1) }

  lemma {:induction false} DigitsLength(n: nat, radix: nat, k: nat)
    requires 2 <= radix <= 16 && k >= 1 && n < Power(radix, k)
    ensures |Digits(n, radix)| <= k
    decreases k
  {
    if k == 1 {
      assert Power(radix, 1) == radix * Power(radix, 0) == radix;
    } else if n >= radix {
      if n / radix >= Power(radix, k - 1) {
        MulMonotone(Power(radix, k - 1), n / radix, radix);
      }
      DigitsLength(n / radix, radix, k - 1);
    }
  }

  lemma PowersOfTen()
    ensures Power(10, 5) == 100000 && Power(10, 10) == 10000000000 && Power(10, 20) == 100000000000000000000
  {
    assert Power(10, 5) == 100000;
    assert Power(10, 6) == 10 * Power(10, 5) && Power(10, 7) == 10 * Power(10, 6) && Power(10, 8) == 10 * Power(10, 7);
    assert Power(10, 9) == 10 * Power(10, 8) && Power(10, 10) == 10 * Power(10, 9) && Power(10, 11) == 10 * Power(10, 10);
    assert Power(10, 12) == 10 * Power(10, 11) && Power(10, 13) == 10 * Power(10, 12) && Power(10, 14) == 10 * Power(10, 13);
    assert Power(10, 15) == 10 * Power(10, 14) && Power(10, 16) == 10 * Power(10, 15) && Power(10, 17) == 10 * Power(10, 16);
    assert Power(10, 18) == 10 * Power(10, 17) && Power(10, 19) == 10 * Power(10, 18) && Power(10, 20) == 10 * Power(10, 19);
  }

  lemma PowersOfSixteen()
    ensures Power(16, 8) == 0x1_0000_0000 && Power(16, 16) == 0x1_0000_0000_0000_0000
  {
    assert Power(16, 4) == 0x1_0000;
    assert Power(16, 5) == 16 * Power(16, 4) && Power(16, 6) == 16 * Power(16, 5) && Power(16, 7) == 16 * Power(16, 6);
    assert Power(16, 8) == 16 * Power(16, 7) && Power(16, 9) == 16 * Power(16, 8) && Power(16, 10) == 16 * Power(16, 9);
    assert Power(16, 11) == 16 * Power(16, 10) && Power(16, 12) == 16 * Power(16, 11) && Power(16, 13) == 16 * Power(16, 12);
    assert Power(16, 14) == 16 * Power(16, 13) && Power(16, 15) == 16 * Power(16, 14) && Power(16, 16) == 16 * Power(16, 15);
  }

  /** The printed text: sign and decimal digits, or the hexadecimal digits of the two's complement pattern. */
  function Text(value: int, t: IntType, radix: int): seq<char>
    requires Min(t) <= value <= Max(t)
  {
    if radix == 16 then Digits(value % Width(t), 16)
    else if value < 0 then "-" + Digits(-value, 10)
    else Digits(value, 10)
  }

  /** Every text fits its temporary array, terminator included. */
  lemma {:induction false} TextFits(value: int, t: IntType, radix: int)
    requires Min(t) <= value <= Max(t)
    ensures |Text(value, t, radix)| + 1 <= TempLength(t)
    ensures radix != 16 ==> |Digits(if value < 0 then -value else value, 10)| + 1 <= TempLength(t)
  {
    PowersOfTen();
    PowersOfSixteen();
    if radix == 16 {
      DigitsLength(value % Width(t), 16, if t.I32? || t.U32? then 8 else 16);
    } else {
      DigitsLength(if value < 0 then -value else value, 10, if t.I32? || t.U32? then 10 else 20);
    }
  }

  /** The 16-bit callers' buffers of seven characters are large enough. */
  lemma ShortTextFits(value: int)
    requires -0x8000 <= value <= 0xffff
    ensures |Text(value, I32, 10)| + 1 <= 7
  {
    PowersOfTen();
    DigitsLength(if value < 0 then -value else value, 10, 5);
  }

  lemma {:induction false} TextHasNoNul(value: int, t: IntType, radix: int)
    requires Min(t) <= value <= Max(t)
    ensures NUL !in Text(value, t, radix)
    ensures radix != 16 ==> NUL !in Digits(if value < 0 then -value else value, 10)
  {
    DigitsDenote(if value < 0 then -value else value, 10);
    DigitsDenote(value % Width(t), 16);
  }

  lemma {:induction false} OneDigit(d: nat)
    requires d < 10
    ensures Digits(d, 10) == [DigitChar(d)]
  {
  }

  lemma NextDigit(n: nat, d: nat)
    requires 0 < n && d < 10
    ensures Digits(10 * n + d, 10) == Digits(n, 10) + [DigitChar(d)]
  {
    assert (10 * n + d) / 10 == n && (10 * n + d) % 10 == d;
  }

  lemma DigitCharacters()
    ensures DigitChar(0) == '0' && DigitChar(1) == '1' && DigitChar(2) == '2' && DigitChar(3) == '3' && DigitChar(4) == '4'
    ensures DigitChar(5) == '5' && DigitChar(6) == '6' && DigitChar(7) == '7' && DigitChar(8) == '8' && DigitChar(9) == '9'
  {
  }

  lemma SmallestInt32()
    ensures Text(Min(I32), I32, 10) == "-2147483648"
  {
    hide DigitChar, Digits;
    OneDigit(2);
    NextDigit(2, 1);
    NextDigit(21, 4);
    NextDigit(214, 7);
    NextDigit(2147, 4);
    NextDigit(21474, 8);
    NextDigit(214748, 3);
    NextDigit(2147483, 6);
    NextDigit(21474836, 4);
    NextDigit(214748364, 8);
    assert Digits(2147483648, 10) == "2147483648" by { DigitCharacters(); }
  }

  lemma SmallestInt64Start()
    ensures Digits(9223372036, 10) == "9223372036"
  {
    hide DigitChar, Digits;
    DigitCharacters();
    OneDigit(9);
    NextDigit(9, 2);
    NextDigit(92, 2);
    NextDigit(922, 3);
    NextDigit(9223, 3);
    NextDigit(92233, 7);
    NextDigit(922337, 2);
    NextDigit(9223372, 0);
    NextDigit(92233720, 3);
    NextDigit(922337203, 6);
  }

  lemma SmallestInt64()
    ensures Text(Min(I64), I64, 10) == "-9223372036854775808"
  {
    hide DigitChar, Digits;
    DigitCharacters();
    SmallestInt64Start();
    NextDigit(9223372036, 8);
    NextDigit(92233720368, 5);
    NextDigit(922337203685, 4);
    NextDigit(9223372036854, 7);
    NextDigit(92233720368547, 7);
    NextDigit(922337203685477, 5);
    NextDigit(9223372036854775, 8);
    NextDigit(92233720368547758, 0);
    NextDigit(922337203685477580, 8);
  }

  /** The buffer starts with the text and its terminator, and nothing behind it has changed. */
  twostate predicate Holds(buffer: array<char>, text: seq<char>)
    requires |text| < buffer.Length
    reads buffer
  {
    buffer[..|text|] == text && buffer[|text|] == NUL && buffer[|text| + 1..] == old(buffer[|text| + 1..])
  }

  /** il2c_i32tow, il2c_u32tow, il2c_i64tow and il2c_u64tow. */
  method IntToW(value: int, t: IntType, buffer: array<char>, radix: int)
    requires Min(t) <= value <= Max(t) && |Text(value, t, radix)| < buffer.Length
    modifies buffer
    ensures Holds(buffer, Text(value, t, radix))
  {
    hide Digits;
    TextFits(value, t, radix);
    TextHasNoNul(value, t, radix);
    var temp := new char[TempLength(t)](_ => NUL);
    if radix == 16 {
      var p := FillBackwards(value % Width(t), 16, temp);
      CopyOut(temp, p, buffer, 0, Digits(value % Width(t), 16));
    } else if t.I32? && value == Min(I32) {
      SmallestInt32();
      CopyText("-2147483648", buffer);
    } else if t.I64? && value == Min(I64) {
      SmallestInt64();
      CopyText("-9223372036854775808", buffer);
    } else if value < 0 {
      buffer[0] := '-';
      var p := FillBackwards(-value, 10, temp);
      CopyOut(temp, p, buffer, 1, Digits(-value, 10));
      assert buffer[..|Text(value, t, radix)|] == [buffer[0]] + buffer[1..|Text(value, t, radix)|];
    } else {
      var p := FillBackwards(value, 10, temp);
      CopyOut(temp, p, buffer, 0, Digits(value, 10));
    }
  }

  /** Writes the digits and the terminator against the end of the array. */
  method FillBackwards(n: nat, radix: nat, temp: array<char>) returns (p: nat)
    requires 2 <= radix <= 16 && |Digits(n, radix)| + 1 <= temp.Length
    modifies temp
    ensures p < temp.Length && p == temp.Length - 2 - |Digits(n, radix)| + 1
    ensures temp[p..temp.Length - 1] == Digits(n, radix) && temp[temp.Length - 1] == NUL
  {
    hide DigitChar;
    var at: int := temp.Length - 1;
    temp[at] := NUL;
    at := at - 1;
    var v: nat := n;
    while true
      invariant at == temp.Length - 2 - (|Digits(n, radix)| - |Digits(v, radix)|)
      invariant |Digits(v, radix)| <= |Digits(n, radix)|
      invariant Digits(n, radix) == Digits(v, radix) + temp[at + 1..temp.Length - 1]
      invariant temp[temp.Length - 1] == NUL
      decreases v
    {
      ghost var tail := temp[at + 1..temp.Length - 1];
      LastDigit(v, radix);
      temp[at] := DigitChar(v % radix);
      assert temp[at..temp.Length - 1] == [DigitChar(v % radix)] + tail;
      at := at - 1;
      if v / radix == 0 { break; }
      v := v / radix;
    }
    p := at + 1;
  }

  /** Copies up to and including the terminator. */
  method CopyOut(temp: array<char>, p: nat, buffer: array<char>, start: nat, ghost text: seq<char>)
    requires p + |text| == temp.Length - 1 && temp[p..temp.Length - 1] == text && temp[temp.Length - 1] == NUL
    requires text != [] && NUL !in text && start + |text| < buffer.Length && temp != buffer
    modifies buffer
    ensures buffer[start..start + |text|] == text && buffer[start + |text|] == NUL
    ensures buffer[..start] == old(buffer[..start])
    ensures buffer[start + |text| + 1..] == old(buffer[start + |text| + 1..])
  {
    var i := 0;
    while true
      invariant 0 <= i <= |text|
      invariant buffer[start..start + i] == text[..i]
      invariant buffer[..start] == old(buffer[..start])
      invariant buffer[start + |text| + 1..] == old(buffer[start + |text| + 1..])
      decreases |text| - i
    {
      buffer[start + i] := temp[p + i];
      if i < |text| { assert temp[p + i] == temp[p..temp.Length - 1][i] == text[i]; assert text[i] in text; }
      if temp[p + i] == NUL { break; }
      i := i + 1;
    }
    assert text[..i] == text;
  }

  /** il2c_wcscpy */
  method CopyText(text: seq<char>, buffer: array<char>)
    requires |text| < buffer.Length
    modifies buffer
    ensures Holds(buffer, text)
  {
    forall i | 0 <= i < |text| { buffer[i] := text[i]; }
    buffer[|text|] := NUL;
  }
}
