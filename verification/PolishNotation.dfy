/** The Polish notation calculator (samples/Calculator/Calculator.Core/PolishNotation.cs). */
module PolishNotation {
  import opened Arithmetic
  import opened Wrappers
  import opened IntegerText
  import opened IntegerParser

  datatype Node =
    | NumericNode(numeric: int, nextIndex: nat)
    | ExpressionNode(symbol: char, operatorEnd: nat, left: Node, right: Node, nextIndex: nat)

  predicate IsOperator(c: char) { c == '+' || c == '-' || c == '*' || c == '/' }
  predicate IsSpace(c: char) { c == ' ' || c == '\t' }

  /** Conversion to int32 by wrap-around. */
  function ToInt32(x: int): (r: int)
    ensures IsInt32(r) && (x - r) % 0x1_0000_0000 == 0
  {
    (x + 0x8000_0000) % 0x1_0000_0000 - 0x8000_0000
  }

  predicate IsInt32(x: int) { -0x8000_0000 <= x < 0x8000_0000 }

  // ---------------------------------------------------------------------------------------------
  // Scanning

  function WhiteSpaceEnd(line: seq<char>, i: nat): (j: nat)
    requires i <= |line|
    ensures i <= j <= |line| && (forall k :: i <= k < j ==> IsSpace(line[k])) && (j < |line| ==> !IsSpace(line[j]))
    decreases |line| - i
  {
    if i < |line| && IsSpace(line[i]) then WhiteSpaceEnd(line, i + 1) else i
  }

  method SkipWhiteSpace(line: seq<char>, startIndex: nat) returns (index: nat)
    requires startIndex <= |line|
    ensures index == WhiteSpaceEnd(line, startIndex)
  {
    index := startIndex;
    while index < |line|
      invariant startIndex <= index <= |line| && WhiteSpaceEnd(line, index) == WhiteSpaceEnd(line, startIndex)
    {
      var ch := line[index];
      if ch != ' ' && ch != '\t' { break; }
      index := index + 1;
    }
  }

  /** A token runs to the next space; tabs do not end it. */
  function TokenEnd(line: seq<char>, i: nat): (j: nat)
    requires i <= |line|
    ensures i <= j <= |line| && (forall k :: i <= k < j ==> line[k] != ' ') && (j < |line| ==> line[j] == ' ')
    decreases |line| - i
  {
    if i < |line| && line[i] != ' ' then TokenEnd(line, i + 1) else i
  }

  /** System.Int32.TryParse over the runtime's own parser: some digits and no overflow of long. */
  function TryParse(token: seq<char>, longMax: nat): Option<int> {
    assert HasTerminator(token + [NUL], 0) by { assert (token + [NUL])[|token|] == NUL; }
    var (value, end, errno) := Parsed(token + [NUL], 10, longMax);
    if end != Some(0) && errno == NoError then Some(ToInt32(value)) else None
  }

  function NumericAt(line: seq<char>, i: nat, longMax: nat): (r: Option<Node>)
    requires i <= |line|
    ensures r.Some? ==> i < r.value.nextIndex <= |line|
  {
    var end := TokenEnd(line, i);
    if end == i then None else
    var numeric := TryParse(line[i..end], longMax);
    if numeric.None? then None else Some(NumericNode(numeric.value, WhiteSpaceEnd(line, end)))
  }

  method ParseNumeric(line: seq<char>, startIndex: nat, longMax: nat) returns (r: Option<Node>)
    requires startIndex <= |line|
    ensures r == NumericAt(line, startIndex, longMax)
  {
    if startIndex >= |line| { return None; }
    var index := startIndex;
    while index < |line|
      invariant startIndex <= index <= |line| && TokenEnd(line, index) == TokenEnd(line, startIndex)
    {
      var ch := line[index];
      if ch == ' ' { break; }
      index := index + 1;
    }
    if index == startIndex { return None; }
    var numeric := TryParse(line[startIndex..index], longMax);
    if numeric.None? { return None; }
    index := SkipWhiteSpace(line, index);
    return Some(NumericNode(numeric.value, index));
  }

  /** An operand: a number if the token is one, an expression otherwise. */
  function OperandAt(line: seq<char>, i: nat, longMax: nat): (r: Option<Node>)
    requires i <= |line|
    ensures r.Some? ==> i < r.value.nextIndex <= |line|
    decreases |line| - i, 1
  {
    var number := NumericAt(line, i, longMax);
    if number.Some? then number else ExpressionAt(line, i, longMax)
  }

  function ExpressionAt(line: seq<char>, i: nat, longMax: nat): (r: Option<Node>)
    requires i <= |line|
    ensures r.Some? ==> i < r.value.nextIndex <= |line| && r.value.ExpressionNode?
    decreases |line| - i, 0
  {
    if i >= |line| || !IsOperator(line[i]) then None else
    var operands := WhiteSpaceEnd(line, i + 1);
    var left := OperandAt(line, operands, longMax);
    if left.None? then None else
    var right := OperandAt(line, left.value.nextIndex, longMax);
    if right.None? then None else
    Some(ExpressionNode(line[i], operands, left.value, right.value, WhiteSpaceEnd(line, right.value.nextIndex)))
  }

  /** Every success advances, which is what the recursion terminates by. */
  method ParseExpression(line: seq<char>, startIndex: nat, longMax: nat) returns (r: Option<Node>)
    requires startIndex <= |line|
    ensures r == ExpressionAt(line, startIndex, longMax)
    ensures r.Some? ==> startIndex < r.value.nextIndex <= |line|
    decreases |line| - startIndex
  {
    hide WhiteSpaceEnd, NumericAt, IsOperator;
    if startIndex >= |line| { return None; }
    var ch := line[startIndex];
    if !IsOperator(ch) { return None; }
    var operatorEnd := SkipWhiteSpace(line, startIndex + 1);
    var left := ParseNumeric(line, operatorEnd, longMax);
    if left.None? {
      left := ParseExpression(line, operatorEnd, longMax);
      if left.None? { return None; }
    }
    var right := ParseNumeric(line, left.value.nextIndex, longMax);
    if right.None? {
      right := ParseExpression(line, left.value.nextIndex, longMax);
      if right.None? { return None; }
    }
    var index := SkipWhiteSpace(line, right.value.nextIndex);
    return Some(ExpressionNode(ch, operatorEnd, left.value, right.value, index));
  }

  // ---------------------------------------------------------------------------------------------
  // Round trip

  datatype Tree = Number(n: int) | Operation(symbol: char, left: Tree, right: Tree)

  predicate IsTree(t: Tree) {
    match t
    case Number(n) => IsInt32(n)
    case Operation(c, l, r) => IsOperator(c) && IsTree(l) && IsTree(r)
  }

  function Printed(t: Tree): seq<char>
    requires IsTree(t)
  {
    match t
    case Number(n) => Text(n, I32, 10)
    case Operation(c, l, r) => [c, ' '] + Printed(l) + [' '] + Printed(r)
  }

  function TreeOf(node: Node): Tree {
    match node
    case NumericNode(n, _) => Number(n)
    case ExpressionNode(c, _, l, r, _) => Operation(c, TreeOf(l), TreeOf(r))
  }

  lemma {:induction false} FirstCharacter(t: Tree)
    requires IsTree(t)
    ensures Printed(t) != [] && !IsSpace(Printed(t)[0])
  {
    if t.Number? {
      TextHasNoSpace(t.n);
    }
  }

  lemma TextHasNoSpace(n: int)
    requires IsInt32(n)
    ensures Text(n, I32, 10) != [] && forall i :: 0 <= i < |Text(n, I32, 10)| ==> !IsSpace(Text(n, I32, 10)[i])
  {
    hide Digits, NumberOf;
    DigitsDenote(if n < 0 then -n else n, 10);
    DigitsAreNoSpace(Digits(if n < 0 then -n else n, 10));
  }

  lemma DigitsAreNoSpace(ds: seq<char>)
    requires AreDigits(ds, 10)
    ensures forall i :: 0 <= i < |ds| ==> !IsSpace(ds[i])
  {
  }

  lemma NumberParses(n: int, longMax: nat)
    requires IsInt32(n) && longMax >= Max(I32)
    ensures TryParse(Text(n, I32, 10), longMax) == Some(n)
  {
    hide Digits, Parsed;
    var text := Text(n, I32, 10);
    var s := text + [NUL];
    assert s[..|text|] == text && s[|text|] == NUL;
    RoundTrip(n, s, longMax);
    TextHasNoSpace(n);
  }

  lemma OperatorIsNoNumber(c: char, longMax: nat)
    requires IsOperator(c)
    ensures TryParse([c], longMax) == None
  {
    hide NumberOf;
    var s := [c] + [NUL];
    assert HasTerminator(s, 0) by { assert s[1] == NUL; }
    assert SkipBlanks(s, 0) == 0;
    var sign := SkipSign(s, 0);
    assert DigitsEnd(s, sign, 10) == sign;
  }

  lemma {:induction false} TokenIs(line: seq<char>, i: nat, j: nat)
    requires i <= j <= |line| && (forall k :: i <= k < j ==> line[k] != ' ') && (j < |line| ==> line[j] == ' ')
    ensures TokenEnd(line, i) == j
    decreases j - i
  {
    if i < j { TokenIs(line, i + 1, j); }
  }

  /** The text of a tree at i, ended by the line's end or by one space. */
  ghost predicate IsPrintedAt(line: seq<char>, i: nat, t: Tree) {
    && IsTree(t) && i + |Printed(t)| <= |line| && line[i..i + |Printed(t)|] == Printed(t)
    && (i + |Printed(t)| < |line| ==> line[i + |Printed(t)|] == ' ')
  }

  lemma {:induction false} NumberRoundTrip(line: seq<char>, i: nat, t: Tree, longMax: nat)
    requires IsPrintedAt(line, i, t) && t.Number? && longMax >= Max(I32)
    ensures NumericAt(line, i, longMax) == Some(NumericNode(t.n, WhiteSpaceEnd(line, i + |Printed(t)|)))
  {
    hide TryParse;
    var j := i + |Printed(t)|;
    TextHasNoSpace(t.n);
    forall k | i <= k < j ensures line[k] != ' ' { assert line[k] == line[i..j][k - i]; }
    TokenIs(line, i, j);
    NumberParses(t.n, longMax);
  }

  /** Where the parts of a printed operation lie. */
  lemma PartsArePrinted(line: seq<char>, i: nat, t: Tree) returns (l: nat, r: nat)
    requires IsPrintedAt(line, i, t) && t.Operation?
    ensures i < |line| && line[i] == t.symbol && i + 1 < |line| && line[i + 1] == ' '
    ensures l == i + 2 && r == l + |Printed(t.left)| + 1 && r + |Printed(t.right)| == i + |Printed(t)|
    ensures IsPrintedAt(line, l, t.left) && IsPrintedAt(line, r, t.right)
    ensures WhiteSpaceEnd(line, i + 1) == l && WhiteSpaceEnd(line, l + |Printed(t.left)|) == r
  {
    hide Printed, WhiteSpaceEnd, IsTree;
    PrintedIsTree(line, i, t);
    SubtreesAreTrees(t);
    l := i + 2;
    r := l + |Printed(t.left)| + 1;
    PartTexts(line, i, t);
    FirstCharacter(t.left);
    FirstCharacter(t.right);
    SliceStart(line, l, Printed(t.left));
    SliceStart(line, r, Printed(t.right));
    OneSpace(line, i + 1);
    OneSpace(line, l + |Printed(t.left)|);
  }

  lemma SliceStart(line: seq<char>, i: nat, p: seq<char>)
    requires i + |p| <= |line| && line[i..i + |p|] == p && p != []
    ensures line[i] == p[0]
  {
    assert line[i..i + |p|][0] == line[i];
  }

  lemma {:induction false} PartTexts(line: seq<char>, i: nat, t: Tree)
    requires IsTree(t) && t.Operation? && IsTree(t.left) && IsTree(t.right)
    requires i + |Printed(t)| <= |line| && line[i..i + |Printed(t)|] == Printed(t)
    ensures
      var p, q := Printed(t.left), Printed(t.right);
      && |Printed(t)| == |p| + |q| + 3
      && line[i] == t.symbol && line[i + 1] == ' ' && line[i + 2 + |p|] == ' '
      && line[i + 2..i + 2 + |p|] == p && line[i + |p| + 3..i + |Printed(t)|] == q
  {
    hide Printed, IsTree;
    var p, n := Printed(t.left), i + |Printed(t)|;
    OperationText(t);
    var text := line[i..n];
    assert text[0] == line[i] && text[1] == line[i + 1] && text[|p| + 2] == line[i + 2 + |p|];
    Slice(line, i, n, 2, 2 + |p|);
    Slice(line, i, n, |p| + 3, |text|);
  }

  lemma {:induction false} SubtreesAreTrees(t: Tree)
    requires IsTree(t) && t.Operation?
    ensures IsTree(t.left) && IsTree(t.right)
  {
  }

  lemma {:induction false} OperationText(t: Tree)
    requires IsTree(t) && t.Operation?
    ensures
      var text, p, q := Printed(t), Printed(t.left), Printed(t.right);
      && |text| == |p| + |q| + 3 && text[0] == t.symbol && text[1] == ' ' && text[|p| + 2] == ' '
      && text[2..2 + |p|] == p && text[|p| + 3..] == q
  {
  }

  lemma Slice(line: seq<char>, i: nat, j: nat, a: nat, b: nat)
    requires i <= j <= |line| && a <= b <= j - i
    ensures line[i..j][a..b] == line[i + a..i + b]
  {
    var x, y := line[i..j][a..b], line[i + a..i + b];
    forall k | 0 <= k < b - a ensures x[k] == y[k] { assert x[k] == line[i..j][a + k]; }
  }

  lemma OneSpace(line: seq<char>, i: nat)
    requires i + 1 < |line| && line[i] == ' ' && !IsSpace(line[i + 1])
    ensures WhiteSpaceEnd(line, i) == i + 1
  {
    assert WhiteSpaceEnd(line, i + 1) == i + 1;
  }

  /** Parsing a printed tree gives the tree back and stops behind the space that follows it. */
  lemma {:induction false} OperandRoundTrip(line: seq<char>, i: nat, t: Tree, longMax: nat)
    requires IsPrintedAt(line, i, t) && longMax >= Max(I32)
    ensures OperandAt(line, i, longMax).Some? && TreeOf(OperandAt(line, i, longMax).value) == t
    ensures OperandAt(line, i, longMax).value.nextIndex == WhiteSpaceEnd(line, i + |Printed(t)|)
    ensures t.Operation? ==> ExpressionAt(line, i, longMax) == OperandAt(line, i, longMax)
    decreases t
  {
    hide Printed, TryParse, IsPrintedAt;
    match t {
      case Number(n) => NumberRoundTrip(line, i, t, longMax);
      case Operation(c, left, right) =>
        PrintedIsTree(line, i, t);
        var l, r := PartsArePrinted(line, i, t);
        OperandRoundTrip(line, l, left, longMax);
        OperandRoundTrip(line, r, right, longMax);
        TokenIs(line, i, i + 1);
        assert line[i..i + 1] == [c];
        OperatorIsNoNumber(c, longMax);
        var end := i + |Printed(t)|;
        SkippedTwice(line, end);
    }
  }

  lemma {:induction false} PrintedIsTree(line: seq<char>, i: nat, t: Tree)
    requires IsPrintedAt(line, i, t)
    ensures IsTree(t) && i + |Printed(t)| <= |line|
  {
  }

  lemma {:induction false} SkippedTwice(line: seq<char>, i: nat)
    requires i <= |line|
    ensures WhiteSpaceEnd(line, WhiteSpaceEnd(line, i)) == WhiteSpaceEnd(line, i)
  {
  }

  /** A printed expression parses to itself and to the end of the line. */
  lemma {:induction false} ParseRoundTrip(t: Tree, longMax: nat)
    requires IsTree(t) && t.Operation? && longMax >= Max(I32)
    ensures ExpressionAt(Printed(t), 0, longMax).Some?
    ensures TreeOf(ExpressionAt(Printed(t), 0, longMax).value) == t
    ensures ExpressionAt(Printed(t), 0, longMax).value.nextIndex == |Printed(t)|
  {
    hide Printed, OperandAt, ExpressionAt, TreeOf, IsTree;
    var line := Printed(t);
    assert line[0..|line|] == line;
    assert IsPrintedAt(line, 0, t);
    OperandRoundTrip(line, 0, t, longMax);
    assert WhiteSpaceEnd(line, |line|) == |line|;
  }

  // ---------------------------------------------------------------------------------------------
  // Evaluation

  datatype Outcome = Value(value: int) | DivideByZero | Overflow

  /** Reduce: 32-bit arithmetic that wraps around; division truncates and can fail. */
  function Reduce(node: Node): Outcome {
    match node
    case NumericNode(n, _) => Value(n)
    case ExpressionNode(c, _, l, r, _) =>
      var a := Reduce(l);
      if !a.Value? then a else
      var b := Reduce(r);
      if !b.Value? then b else
      if c == '+' then Value(ToInt32(a.value + b.value))
      else if c == '-' then Value(ToInt32(a.value - b.value))
      else if c == '*' then Value(ToInt32(a.value * b.value))
      else if c == '/' then Divide(a.value, b.value)
      else Value(0)
  }

  function Divide(a: int, b: int): Outcome {
    if b == 0 then DivideByZero
    else if a == -0x8000_0000 && b == -1 then Overflow
    else Value(TruncDiv(a, b))
  }

  /** The value in unbounded arithmetic; None where a divisor is zero. */
  ghost function Exact(t: Tree): Option<int> {
    match t
    case Number(n) => Some(n)
    case Operation(c, l, r) =>
      var a, b := Exact(l), Exact(r);
      if a.None? || b.None? then None
      else if c == '+' then Some(a.value + b.value)
      else if c == '-' then Some(a.value - b.value)
      else if c == '*' then Some(a.value * b.value)
      else if b.value == 0 then None
      else Some(QuotientOf(a.value, b.value))
  }

  /** The only number that is the quotient. */
  ghost function QuotientOf(a: int, b: int): (q: int)
    requires b != 0
    ensures IsQuotient(a, b, q)
  {
    TruncDivMeaning(a, b);
    var q :| IsQuotient(a, b, q);
    q
  }

  lemma TruncDivIsQuotient(a: int, b: int)
    requires b != 0
    ensures TruncDiv(a, b) == QuotientOf(a, b)
  {
    TruncDivMeaning(a, b);
    QuotientIsUnique(a, b, TruncDiv(a, b), QuotientOf(a, b));
  }

  predicate HasNoDivision(t: Tree) {
    t.Operation? ==> t.symbol != '/' && HasNoDivision(t.left) && HasNoDivision(t.right)
  }

  /** Every subexpression has a value that fits. */
  ghost predicate Fits(t: Tree) {
    Exact(t).Some? && IsInt32(Exact(t).value) && (t.Operation? ==> Fits(t.left) && Fits(t.right))
  }

  lemma Congruent(x: int, y: int, k: int)
    requires x == y + k * 0x1_0000_0000
    ensures ToInt32(x) == ToInt32(y)
  {
  }

  /** Wrapping the operands first does not change the wrapped result. */
  lemma WrapFirst(a: int, b: int)
    ensures ToInt32(ToInt32(a) + ToInt32(b)) == ToInt32(a + b)
    ensures ToInt32(ToInt32(a) - ToInt32(b)) == ToInt32(a - b)
    ensures ToInt32(ToInt32(a) * ToInt32(b)) == ToInt32(a * b)
  {
    var m := 0x1_0000_0000;
    var k, l := (a + 0x8000_0000) / m, (b + 0x8000_0000) / m;
    assert a == ToInt32(a) + k * m && b == ToInt32(b) + l * m;
    Congruent(a + b, ToInt32(a) + ToInt32(b), k + l);
    Congruent(a - b, ToInt32(a) - ToInt32(b), k - l);
    Product(ToInt32(a), k, ToInt32(b), l, m);
    Congruent(a * b, ToInt32(a) * ToInt32(b), ToInt32(a) * l + k * ToInt32(b) + k * l * m);
  }

  lemma Product(x: int, k: int, y: int, l: int, m: int)
    ensures (x + k * m) * (y + l * m) == x * y + (x * l + k * y + k * l * m) * m
  {
  }

  /** Without divisions, reducing is the exact value wrapped once. */
  lemma {:induction false} ReduceWraps(node: Node)
    requires IsTree(TreeOf(node)) && HasNoDivision(TreeOf(node))
    ensures Exact(TreeOf(node)).Some? && Reduce(node) == Value(ToInt32(Exact(TreeOf(node)).value))
  {
    hide ToInt32;
    match node {
      case NumericNode(n, _) => InRange(n);
      case ExpressionNode(c, _, l, r, _) =>
        ReduceWraps(l);
        ReduceWraps(r);
        WrapFirst(Exact(TreeOf(l)).value, Exact(TreeOf(r)).value);
    }
  }

  /** The quotient as a 32-bit number. */
  ghost function Quotient(x: int, y: int): Outcome {
    if y == 0 then DivideByZero else if IsInt32(QuotientOf(x, y)) then Value(QuotientOf(x, y)) else Overflow
  }

  /** The meaning of every tree: unbounded arithmetic, wrapped to 32 bits only where a division looks at its operands. */
  ghost function Meaning(t: Tree): Outcome {
    match t
    case Number(n) => Value(n)
    case Operation(c, l, r) =>
      var a := Meaning(l);
      if !a.Value? then a else
      var b := Meaning(r);
      if !b.Value? then b else
      if c == '+' then Value(a.value + b.value)
      else if c == '-' then Value(a.value - b.value)
      else if c == '*' then Value(a.value * b.value)
      else
        Quotient(ToInt32(a.value), ToInt32(b.value))
  }

  function Wrapped(o: Outcome): Outcome { if o.Value? then Value(ToInt32(o.value)) else o }

  /** Reducing any tree is its meaning, wrapped once; errors are the same. */
  lemma {:induction false} ReduceIsMeaning(node: Node)
    requires IsTree(TreeOf(node))
    ensures Reduce(node) == Wrapped(Meaning(TreeOf(node)))
  {
    hide ToInt32, Divide, Quotient;
    match node {
      case NumericNode(n, _) => InRange(n);
      case ExpressionNode(c, _, l, r, _) =>
        ReduceIsMeaning(l);
        ReduceIsMeaning(r);
        var a, b := Meaning(TreeOf(l)), Meaning(TreeOf(r));
        if a.Value? && b.Value? {
          WrapFirst(a.value, b.value);
          InRangeAfter(a.value);
          InRangeAfter(b.value);
          DivisionIsQuotient(ToInt32(a.value), ToInt32(b.value));
          QuotientFits(ToInt32(a.value), ToInt32(b.value));
        }
    }
  }

  lemma InRangeAfter(x: int)
    ensures IsInt32(ToInt32(x))
  {
  }

  /** The one quotient of 32-bit numbers that is not one. */
  lemma OnlyOverflow(x: int, y: int)
    requires IsInt32(x) && y != 0
    ensures IsInt32(QuotientOf(x, y)) <==> !(x == -0x8000_0000 && y == -1)
  {
    var q := QuotientOf(x, y);
    var r := x - q * y;
    if y == -1 {
      assert q == -x;
    } else if y == 1 {
      assert q == x;
    } else {
      Multiples(q, Abs(y));
      assert q * y == x - r;
      assert Abs(q * y) <= Abs(x);
      assert Abs(q) * 2 <= Abs(q) * Abs(y) by { MulMonotone(2, Abs(y), Abs(q)); }
      assert Abs(q) * Abs(y) == Abs(q * y) by { AbsProduct(q, y); }
    }
  }

  lemma AbsProduct(x: int, y: int)
    ensures Abs(x) * Abs(y) == Abs(x * y)
  {
    Negated(x, y);
    Negated(-x, y);
    if x >= 0 && y >= 0 { MulMonotone(0, x, y); }
    if x < 0 && y >= 0 { MulMonotone(0, -x, y); }
    if x >= 0 && y < 0 { MulMonotone(0, x, -y); }
    if x < 0 && y < 0 { MulMonotone(0, -x, -y); }
  }

  lemma QuotientFits(x: int, y: int)
    ensures Wrapped(Quotient(x, y)) == Quotient(x, y)
  {
    if y != 0 && IsInt32(QuotientOf(x, y)) { InRange(QuotientOf(x, y)); }
  }

  /** Dividing 32-bit numbers gives the quotient, and overflows exactly if that does not fit. */
  lemma DivisionIsQuotient(x: int, y: int)
    requires IsInt32(x) && IsInt32(y)
    ensures Divide(x, y) == Quotient(x, y)
  {
    if y != 0 {
      TruncDivIsQuotient(x, y);
      OnlyOverflow(x, y);
    }
  }

  /** A division node reduces to C#'s quotient of its operands, for all operands that divide. */
  lemma DivisionMeaning(a: int, b: int, i: nat, j: nat, k: nat, l: nat)
    requires IsInt32(a) && IsInt32(b) && b != 0 && !(a == -0x8000_0000 && b == -1)
    ensures
      var o := Reduce(ExpressionNode('/', i, NumericNode(a, j), NumericNode(b, k), l));
      o.Value? && exists r :: a == o.value * b + r && Abs(r) < Abs(b) && (r == 0 || (r > 0 <==> a > 0))
  {
    TruncDivMeaning(a, b);
    assert a == TruncDiv(a, b) * b + (a - TruncDiv(a, b) * b);
  }

  /** Some division's operands have values, and they do not divide. */
  ghost predicate HasBadDivision(t: Tree) {
    t.Operation? &&
    (HasBadDivision(t.left) || HasBadDivision(t.right) ||
     (t.symbol == '/' && Meaning(t.left).Value? && Meaning(t.right).Value? &&
      (ToInt32(Meaning(t.right).value) == 0 ||
       (ToInt32(Meaning(t.left).value) == -0x8000_0000 && ToInt32(Meaning(t.right).value) == -1))))
  }

  /** Reducing fails exactly if some division does. */
  lemma {:induction false} FailureMeaning(t: Tree)
    requires IsTree(t)
    ensures Meaning(t).Value? <==> !HasBadDivision(t)
  {
    hide ToInt32, TruncDiv, IsInt32, QuotientOf;
    if t.Operation? {
      FailureMeaning(t.left);
      FailureMeaning(t.right);
      if Meaning(t.left).Value? && Meaning(t.right).Value? {
        var x, y := ToInt32(Meaning(t.left).value), ToInt32(Meaning(t.right).value);
        InRangeAfter(Meaning(t.left).value);
        if y != 0 { OnlyOverflow(x, y); }
      }
    }
  }

  /** From a printed tree to its result: parsing and reducing evaluates it. */
  lemma {:induction false} Calculates(t: Tree, longMax: nat)
    requires IsTree(t) && t.Operation? && longMax >= Max(I32)
    ensures ExpressionAt(Printed(t), 0, longMax).Some?
    ensures Reduce(ExpressionAt(Printed(t), 0, longMax).value) == Wrapped(Meaning(t))
  {
    hide Printed, ExpressionAt, Reduce, Meaning, TreeOf, IsTree;
    ParseRoundTrip(t, longMax);
    ReduceIsMeaning(ExpressionAt(Printed(t), 0, longMax).value);
  }

  lemma InRange(n: int)
    requires IsInt32(n)
    ensures ToInt32(n) == n
  {
  }

  /** If every intermediate value fits, reducing is exact, divisions included. */
  lemma {:induction false} ReduceIsExact(node: Node)
    requires IsTree(TreeOf(node)) && Fits(TreeOf(node))
    ensures Reduce(node) == Value(Exact(TreeOf(node)).value)
  {
    hide ToInt32, TruncDiv, QuotientOf;
    match node {
      case NumericNode(n, _) =>
      case ExpressionNode(c, _, l, r, _) =>
        ReduceIsExact(l);
        ReduceIsExact(r);
        InRange(Exact(TreeOf(node)).value);
        if c == '/' { DivisionIsQuotient(Exact(TreeOf(l)).value, Exact(TreeOf(r)).value); }
    }
  }
}
