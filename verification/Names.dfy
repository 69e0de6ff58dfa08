/** Names the translator gives to C variables and labels
    (IL2C.Core/Translators/DecodeContext.cs, IL2C.Core/Metadata/MetadataUtilities.cs). */
module Names {
  import opened IntegerText

  lemma {:induction false} NoUnderscore(n: nat, radix: nat)
    requires 2 <= radix <= 16
    ensures '_' !in Digits(n, radix)
    decreases n
  {
    LastDigit(n, radix);
    DivisionFacts(n, radix);
    if n >= radix { NoUnderscore(n / radix, radix); }
  }

  /** `{0:x4}`: zero padded on the left to at least width characters. */
  function PadLeft(s: string, width: nat): (r: string)
    decreases width - |s|
  {
    if |s| >= width then s else PadLeft("0" + s, width)
  }

  lemma {:induction false} ZeroPrefix(s: string, radix: nat)
    ensures NumberOf("0" + s, radix) == NumberOf(s, radix)
  {
    if s == "" {
      Snoc("", '0', radix);
      assert "" + ['0'] == "0" == "0" + s;
      assert NumberOf("", radix) * radix == 0;
    } else {
      assert ("0" + s)[..|s|] == "0" + s[..|s| - 1];
      ZeroPrefix(s[..|s| - 1], radix);
    }
  }

  /** Padding does not change the number. */
  lemma {:induction false} PaddedDenotes(s: string, width: nat, radix: nat)
    ensures NumberOf(PadLeft(s, width), radix) == NumberOf(s, radix)
    decreases width - |s|
  {
    if |s| < width {
      ZeroPrefix(s, radix);
      PaddedDenotes("0" + s, width, radix);
    }
  }

  /** The C variable of the index-th type seen at a stack depth. */
  function SymbolName(depth: nat, index: nat): string {
    "stack" + (Digits(depth, 10) + ("_" + (Digits(index, 10) + "__")))
  }

  /** The C label of an IL offset. */
  function LabelName(offset: nat): string {
    "IL_" + PadLeft(Digits(offset, 16), 4)
  }

  lemma SplitAtUnderscore(a: string, x: string, b: string, y: string)
    requires '_' !in a && '_' !in b
    requires a + ("_" + x) == b + ("_" + y)
    ensures a == b && x == y
  {
    var s, t := a + ("_" + x), b + ("_" + y);
    assert s[|a|] == '_' && t[|b|] == '_';
    assert forall i :: 0 <= i < |a| ==> s[i] == a[i];
    assert forall i :: 0 <= i < |b| ==> t[i] == b[i];
    assert |a| == |b|;
    assert s[..|a|] == a && t[..|b|] == b;
    assert s[|a| + 1..] == x && t[|b| + 1..] == y;
  }

  lemma DropPrefix(p: string, a: string, b: string)
    requires p + a == p + b
    ensures a == b
  {
    assert (p + a)[|p|..] == a && (p + b)[|p|..] == b;
  }

  /** Two stack variables share a C name only if they are the same (depth, index) pair. */
  lemma SymbolNameInjective(d: nat, i: nat, e: nat, j: nat)
    requires SymbolName(d, i) == SymbolName(e, j)
    ensures d == e && i == j
  {
    hide Digits;
    var di, ds, ei, es := Digits(i, 10), Digits(d, 10), Digits(j, 10), Digits(e, 10);
    NoUnderscore(d, 10); NoUnderscore(e, 10); NoUnderscore(i, 10); NoUnderscore(j, 10);
    DropPrefix("stack", ds + ("_" + (di + "__")), es + ("_" + (ei + "__")));
    SplitAtUnderscore(ds, di + "__", es, ei + "__");
    assert di + "__" == di + ("_" + "_") && ei + "__" == ei + ("_" + "_");
    SplitAtUnderscore(di, "_", ei, "_");
    DigitsDenote(d, 10); DigitsDenote(e, 10); DigitsDenote(i, 10); DigitsDenote(j, 10);
  }

  /** Two offsets share a C label only if they are equal. */
  lemma LabelNameInjective(a: nat, b: nat)
    requires LabelName(a) == LabelName(b)
    ensures a == b
  {
    hide Digits;
    DropPrefix("IL_", PadLeft(Digits(a, 16), 4), PadLeft(Digits(b, 16), 4));
    PaddedDenotes(Digits(a, 16), 4, 16); PaddedDenotes(Digits(b, 16), 4, 16);
    DigitsDenote(a, 16); DigitsDenote(b, 16);
  }
}
