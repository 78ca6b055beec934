/** The calculator's keypad machine against the expression it displays: what is shown, read from left
    to right, is what has been computed. */
module Calculator {
  import opened Arithmetic

  const BUFFER := 32 // sizeof(expr_buf)
  const INT_MIN := -0x8000_0000

  predicate InInt32(v: int) { INT_MIN <= v <= INT_MAX }

  predicate IsDigit(c: char) { '0' <= c <= '9' }

  predicate IsOp(c: char) { c == '+' || c == '-' || c == '*' || c == '/' }

  predicate IsKey(c: char) { IsDigit(c) || IsOp(c) || c == 'C' || c == '=' }

  predicate AllDigits(s: string) { forall k :: 0 <= k < |s| ==> IsDigit(s[k]) }

  function DigitOf(c: char): nat
    requires IsDigit(c)
  {
    c as int - '0' as int
  }

  function CharOf(d: nat): (c: char)
    requires d < 10
    ensures IsDigit(c) && DigitOf(c) == d
  {
    ('0' as int + d) as char
  }

  function ApplyOp(a: int, b: int, op: char): int
  {
    if op == '+' then a + b
    else if op == '-' then a - b
    else if op == '*' then a * b
    else if op == '/' then (if b == 0 then a else Quotient(a, b))
    else b
  }

  // ---- reading an expression ----

  function Digits(s: string): nat
    requires AllDigits(s)
  {
    if s == "" then 0 else Digits(s[..|s| - 1]) * 10 + DigitOf(s[|s| - 1])
  }

  /** A non-empty run of digits, perhaps with a minus sign in front. */
  predicate IsNumber(s: string)
  {
    s != "" && AllDigits(Unsigned(s)) && Unsigned(s) != ""
  }

  function Unsigned(s: string): string
  {
    if s != "" && s[0] == '-' then s[1..] else s
  }

  function Number(s: string): int
    requires IsNumber(s)
  {
    if s[0] == '-' then -(Digits(Unsigned(s)) as int) else Digits(s)
  }

  /** Position of the last operator; a character at position 0 is a sign or a digit, never an operator. */
  function OpAt(e: string): (i: nat)
    ensures i > 0 ==> i < |e| && IsOp(e[i])
    ensures forall k :: i < k < |e| ==> k == 0 || !IsOp(e[k])
  {
    if |e| <= 1 then 0
    else if IsOp(e[|e| - 1]) then |e| - 1
    else OpAt(e[..|e| - 1])
  }

  /** Numbers joined by single operators; the last operator may still await its number. */
  predicate IsExpr(e: string)
    decreases |e|
  {
    if OpAt(e) == 0 then IsNumber(e)
    else IsExpr(e[..OpAt(e)]) && !Dangling(e[..OpAt(e)]) && AllDigits(e[OpAt(e) + 1..])
  }

  predicate Dangling(e: string)
  {
    OpAt(e) > 0 && OpAt(e) == |e| - 1
  }

  /** The value of an expression read from left to right, without precedence. */
  function Value(e: string): int
    requires IsExpr(e)
    decreases |e|
  {
    if OpAt(e) == 0 then Number(e)
    else if Dangling(e) then Value(e[..OpAt(e)])
    else ApplyOp(Value(e[..OpAt(e)]), Digits(e[OpAt(e) + 1..]), e[OpAt(e)])
  }

  lemma AppendDigit(e: string, c: char)
    requires e != "" && IsDigit(c)
    ensures OpAt(e + [c]) == OpAt(e)
  {
    assert (e + [c])[..|e|] == e;
  }

  lemma AppendOp(e: string, c: char)
    requires e != "" && IsOp(c)
    ensures OpAt(e + [c]) == |e| && (e + [c])[..|e|] == e && (e + [c])[|e| + 1..] == ""
  {
  }

  lemma AppendToDigits(s: string, c: char)
    requires AllDigits(s) && IsDigit(c)
    ensures AllDigits(s + [c]) && Digits(s + [c]) == Digits(s) * 10 + DigitOf(c)
  {
    assert (s + [c])[..|s|] == s;
  }

  // ---- decimal notation ----

  function Dec(n: nat): (s: string)
    ensures AllDigits(s) && s != ""
  {
    if n < 10 then [CharOf(n)] else Dec(n / 10) + [CharOf(n % 10)]
  }

  function Decimal(v: int): string
  {
    if v < 0 then "-" + Dec(-v) else Dec(v)
  }

  lemma {:induction false} DecReadsBack(n: nat)
    ensures Digits(Dec(n)) == n && (Dec(n)[0] == '0' ==> n == 0)
  {
    if n >= 10 {
      DecReadsBack(n / 10);
      AppendToDigits(Dec(n / 10), CharOf(n % 10));
    } else {
      AppendToDigits("", CharOf(n));
      assert [CharOf(n)] == "" + [CharOf(n)];
    }
  }

  lemma DecimalReadsBack(v: int)
    ensures IsNumber(Decimal(v)) && Number(Decimal(v)) == v && OpAt(Decimal(v)) == 0
  {
    hide Digits, Dec, OpAt, IsDigit, IsOp;
    var s := Dec(if v < 0 then -v else v);
    DecReadsBack(if v < 0 then -v else v);
    NoOperators(s);
    DigitIsNoSign(s[0]);
    if v < 0 { assert Decimal(v)[1..] == s; }
  }

  /** A minus sign stands in front of negative numbers alone, and no zero in front of other digits. */
  lemma DecimalForm(v: int)
    ensures Decimal(v) != "" && (Decimal(v)[0] == '-' <==> v < 0)
    ensures |Decimal(v)| > 1 && v >= 0 ==> Decimal(v)[0] != '0'
    ensures v < 0 ==> |Decimal(v)| > 1 && Decimal(v)[1] != '0'
  {
    hide Dec, Digits;
    var s := Dec(if v < 0 then -v else v);
    DecReadsBack(if v < 0 then -v else v);
    DigitIsNoSign(s[0]);
    ZeroAlone();
  }

  lemma ZeroAlone()
    ensures |Dec(0)| == 1
  {
  }

  lemma DigitIsNoSign(c: char)
    requires IsDigit(c)
    ensures c != '-' && c != 'C' && c != '=' && !IsOp(c)
  {
  }

  lemma NoOperators(s: string)
    requires AllDigits(s)
    ensures OpAt(s) == 0 && OpAt("-" + s) == 0
  {
    hide OpAt, IsDigit, IsOp;
    if OpAt(s) > 0 { DigitIsNoSign(s[OpAt(s)]); }
    if OpAt("-" + s) > 0 { DigitIsNoSign(s[OpAt("-" + s) - 1]); }
  }

  function Pow10(k: nat): nat { if k == 0 then 1 else 10 * Pow10(k - 1) }

  lemma {:induction false} DecLength(n: nat, k: nat)
    requires k > 0 && n < Pow10(k)
    ensures |Dec(n)| <= k
  {
    if n >= 10 {
      assert n / 10 < Pow10(k - 1) && k > 1 by { assert Pow10(0) == 1; }
      DecLength(n / 10, k - 1);
    }
  }

  lemma DecimalLength(v: int)
    requires InInt32(v)
    ensures |Decimal(v)| <= 11
  {
    var n := if v < 0 then -v else v;
    assert Pow10(5) == 100000;
    assert Pow10(10) == 10000000000;
    DecLength(n, 10);
  }

  // ---- the keypad machine ----

  datatype Calc = Calc(display: int, pending: int, op: char, startNew: bool, expr: string, justEvaluated: bool)

  const NO_OP: char := '\0'

  function Initial(): Calc { Calc(0, 0, NO_OP, true, "0", false) }

  function Append(e: string, c: char): string
  {
    if |e| < BUFFER - 1 then e + [c] else e
  }

  function Press(s: Calc, key: char): Calc
    requires IsKey(key)
  {
    if IsDigit(key) then
      var e := if s.justEvaluated then "" else s.expr;
      var d := DigitOf(key);
      s.(justEvaluated := false, display := if s.startNew then d else s.display * 10 + d,
         startNew := false, expr := Append(e, key))
    else if key == 'C' then Initial()
    else if key == '=' then
      var r := if s.op != NO_OP then ApplyOp(s.pending, s.display, s.op) else s.display;
      Calc(r, s.pending, NO_OP, true, Decimal(r), true)
    else if s.op != NO_OP && s.startNew then
      s.(justEvaluated := false, expr := if |s.expr| > 0 then s.expr[..|s.expr| - 1] + [key] else s.expr,
         pending := s.display, op := key, startNew := true)
    else
      var r := if s.op != NO_OP then ApplyOp(s.pending, s.display, s.op) else s.display;
      Calc(r, r, key, true, Append(s.expr, key), false)
  }

  /** The displayed expression, read from left to right, is what the machine holds: the number being
      typed, or the value so far with the operator that awaits its number, or the result. */
  ghost predicate Shows(s: Calc)
  {
    && IsExpr(s.expr)
    && (s.justEvaluated ==> s.startNew && s.op == NO_OP && s.expr == Decimal(s.display))
    && if s.op == NO_OP then
         && OpAt(s.expr) == 0 && Value(s.expr) == s.display
         && (s.startNew && !s.justEvaluated ==> s.expr == "0")
         && (!s.startNew ==> AllDigits(s.expr))
       else
         && OpAt(s.expr) > 0 && s.expr[OpAt(s.expr)] == s.op && Value(s.expr[..OpAt(s.expr)]) == s.pending
         && if s.startNew then Dangling(s.expr) && s.display == s.pending
            else !Dangling(s.expr) && Digits(s.expr[OpAt(s.expr) + 1..]) == s.display
  }

  // ---- what the keys mean ----

  /** Minus undoes plus, plus counts up, times is repeated addition, division truncates toward zero, and dividing
      by zero changes nothing. */
  lemma OpLaws(a: int, b: int)
    ensures ApplyOp(ApplyOp(a, b, '+'), b, '-') == a
    ensures ApplyOp(a, 0, '+') == a && ApplyOp(a, b + 1, '+') == ApplyOp(a, b, '+') + 1
    ensures ApplyOp(a, 0, '*') == 0 && ApplyOp(a, b + 1, '*') == ApplyOp(a, b, '*') + a
    ensures ApplyOp(a, 0, '/') == a
    ensures b != 0 ==>
              var r := a - ApplyOp(a, b, '/') * b;
              && (if a >= 0 then 0 <= r else r <= 0) && if b > 0 then -b < r < b else b < r < -b
  {
    assert a * (b + 1) == a * b + a;
    if b != 0 { QuotientRemainder(a, b); }
  }

  function Magnitude(b: int): nat { if b < 0 then -b else b }

  lemma QuotientRemainder(a: int, b: int)
    requires b != 0
    ensures var r := a - Quotient(a, b) * b;
            (if a >= 0 then 0 <= r else r <= 0) && Magnitude(r) < Magnitude(b)
  {
    hide Quotient;
    Remains(Magnitude(a), Magnitude(b));
    QuotientTimes(a, b);
  }

  lemma QuotientTimes(a: int, b: int)
    requires b != 0
    ensures var p := Magnitude(a) / Magnitude(b) * Magnitude(b);
            Quotient(a, b) * b == if a >= 0 then p else -p
  {
    hide Quotient;
    QuotientSign(a, b);
    Signs(Magnitude(a) / Magnitude(b), Magnitude(b));
  }

  lemma Signs(q: int, n: int)
    ensures (-q) * n == -(q * n) && q * (-n) == -(q * n) && (-q) * (-n) == q * n
  {
  }

  lemma QuotientSign(a: int, b: int)
    requires b != 0
    ensures Quotient(a, b)
            == if (a >= 0) == (b > 0) then Magnitude(a) / Magnitude(b) else -(Magnitude(a) / Magnitude(b))
  {
  }

  lemma Remains(m: nat, n: nat)
    requires n > 0
    ensures 0 <= m - m / n * n < n
  {
  }

  /** An expression is evaluated from left to right: one more operator and number act on the value so far. */
  lemma ValueGrows(e: string, op: char, digits: string)
    requires IsExpr(e) && e != "" && !Dangling(e) && IsOp(op) && AllDigits(digits) && digits != ""
    ensures IsExpr(e + [op] + digits) && Value(e + [op] + digits) == ApplyOp(Value(e), Digits(digits), op)
  {
    hide Digits, IsOp, ApplyOp;
    var e' := e + [op] + digits;
    LastOperator(e, op, digits);
    assert e'[..|e|] == e && e'[|e| + 1..] == digits && e'[|e|] == op;
  }

  lemma {:induction false} LastOperator(e: string, op: char, digits: string)
    requires e != "" && IsOp(op) && AllDigits(digits)
    ensures OpAt(e + [op] + digits) == |e|
  {
    hide IsOp;
    if digits == "" {
      AppendOp(e, op);
      assert e + [op] + digits == e + [op];
    } else {
      var d, c := digits[..|digits| - 1], digits[|digits| - 1];
      LastOperator(e, op, d);
      AppendDigit(e + [op] + d, c);
      assert e + [op] + digits == (e + [op] + d) + [c];
    }
  }

  /** A number is read in base ten, digit by digit; without an operator its value is the number. */
  lemma NumberGrows(s: string, c: char)
    requires AllDigits(s) && IsDigit(c)
    ensures AllDigits(s + [c]) && Digits(s + [c]) == Digits(s) * 10 + DigitOf(c) && Digits("") == 0
    ensures IsExpr(s + [c]) && Value(s + [c]) == Digits(s + [c])
  {
    hide Digits;
    AppendToDigits(s, c);
    NoDigits("");
    NoOperators(s + [c]);
    if s == "" { DigitIsNoSign(c); } else { DigitIsNoSign(s[0]); }
  }

  /** C forgets everything. */
  lemma ClearForgets(s: Calc)
    ensures Press(s, 'C') == Initial() == Calc(0, 0, '\0', true, "0", false)
  {
  }

  /** A second operator replaces the first. */
  lemma OperatorReplaced(s: Calc, first: char, second: char)
    requires Shows(s) && IsOp(first) && IsOp(second) && Room(s, first)
    ensures Press(Press(s, first), second) == Press(s, second)
  {
    hide IsExpr, Value, Digits, ApplyOp, IsDigit;
    OpIsKey(first);
    OpIsKey(second);
    if s.op != NO_OP && s.startNew {
      assert s.expr != "";
    } else {
      assert (s.expr + [first])[..|s.expr|] == s.expr;
    }
  }

  lemma OpIsKey(c: char)
    requires IsOp(c)
    ensures IsKey(c) && !IsDigit(c) && c != 'C' && c != '=' && c != NO_OP
  {
  }

  /** After = a digit starts a new number, and an operator goes on with the result. */
  lemma AfterEquals(s: Calc, key: char)
    requires IsDigit(key) || IsOp(key)
    ensures var t := Press(s, '=');
            && (IsDigit(key) ==> Press(t, key).display == DigitOf(key) && Press(t, key).expr == [key])
            && (IsOp(key) ==> Press(t, key).pending == t.display && Press(t, key).op == key
                              && Press(t, key).expr == Append(Decimal(t.display), key))
            && Press(t, '=') == t
  {
    hide Decimal;
    if IsOp(key) { OpIsKey(key); }
  }

  /** The digits, from '0' on. */
  lemma DigitsInOrder(c: char)
    requires '0' <= c < '9'
    ensures DigitOf('0') == 0 && DigitOf((c as int + 1) as char) == DigitOf(c) + 1
  {
  }

  lemma OneDigit(c: char)
    requires IsDigit(c)
    ensures IsExpr([c]) && OpAt([c]) == 0 && AllDigits([c]) && Value([c]) == DigitOf(c)
  {
    hide Digits, IsDigit;
    AppendToDigits("", c);
    NoDigits("");
    assert "" + [c] == [c];
    DigitIsNoSign(c);
  }

  lemma ZeroIsZero()
    ensures IsExpr("0") && Value("0") == 0 && OpAt("0") == 0 && AllDigits("0")
  {
    OneDigit('0');
  }

  lemma InitialShows()
    ensures Shows(Initial())
  {
    hide Value, IsExpr, OpAt, IsDigit, IsOp;
    ZeroIsZero();
  }

  /** A key has room in the buffer, unless it writes no new character. */
  predicate Room(s: Calc, key: char)
  {
    || |s.expr| < BUFFER - 1 || key == 'C' || key == '='
    || (IsDigit(key) && s.justEvaluated) || (IsOp(key) && s.op != NO_OP && s.startNew)
  }

  /** A digit after an unsigned number. */
  lemma NumberThenDigit(e: string, c: char)
    requires IsExpr(e) && OpAt(e) == 0 && AllDigits(e) && IsDigit(c)
    ensures IsExpr(e + [c]) && OpAt(e + [c]) == 0 && AllDigits(e + [c]) && Value(e + [c]) == Value(e) * 10 + DigitOf(c)
  {
    hide Digits;
    AppendDigit(e, c);
    AppendToDigits(e, c);
    assert (e + [c])[0] == e[0];
  }

  /** A digit after an operator. */
  lemma OperandThenDigit(e: string, c: char)
    requires IsExpr(e) && OpAt(e) > 0 && IsDigit(c)
    ensures var i, e' := OpAt(e), e + [c];
            && IsExpr(e') && OpAt(e') == i && e'[i] == e[i] && e'[..i] == e[..i] && !Dangling(e')
            && Digits(e'[i + 1..]) == Digits(e[i + 1..]) * 10 + DigitOf(c)
  {
    hide Digits, IsDigit, IsOp;
    var i := OpAt(e);
    AppendDigit(e, c);
    var e' := e + [c];
    assert e'[..i] == e[..i];
    assert e'[i + 1..] == e[i + 1..] + [c];
    AppendToDigits(e[i + 1..], c);
  }

  /** An operator after an expression that does not await a number. */
  lemma ExprThenOp(e: string, c: char)
    requires IsExpr(e) && !Dangling(e) && IsOp(c)
    ensures IsExpr(e + [c]) && OpAt(e + [c]) == |e| > 0 && (e + [c])[..|e|] == e && Dangling(e + [c])
  {
    AppendOp(e, c);
  }

  lemma DigitShows(s: Calc, key: char)
    requires Shows(s) && IsDigit(key) && Room(s, key)
    ensures Shows(Press(s, key))
  {
    hide Value, IsExpr, Digits, Decimal, IsOp, IsDigit;
    if s.justEvaluated {
      OneDigit(key);
      assert Append("", key) == [key];
    } else if s.op == NO_OP {
      DigitOnNumber(s, key);
    } else {
      DigitOnOperand(s, key);
    }
  }

  lemma DigitOnNumber(s: Calc, key: char)
    requires Shows(s) && IsDigit(key) && Room(s, key) && !s.justEvaluated && s.op == NO_OP
    ensures Shows(Press(s, key))
  {
    hide Value, IsExpr, Digits, Decimal, IsDigit, IsOp;
    ZeroIsZero();
    DigitIsNoSign(key);
    NumberThenDigit(s.expr, key);
  }

  lemma DigitOnOperand(s: Calc, key: char)
    requires Shows(s) && IsDigit(key) && Room(s, key) && !s.justEvaluated && s.op != NO_OP
    ensures Shows(Press(s, key))
  {
    hide Value, IsExpr, Digits, Decimal, IsDigit, IsOp;
    ReadableExpr(s.expr);
    DigitIsNoSign(key);
    OperandThenDigit(s.expr, key);
    if s.startNew { NoDigits(s.expr[OpAt(s.expr) + 1..]); }
  }

  lemma NoDigits(e: string)
    requires e == ""
    ensures Digits(e) == 0
  {
  }

  lemma ReadableExpr(e: string)
    requires IsExpr(e)
    ensures e != ""
    ensures OpAt(e) == 0 ==> IsNumber(e)
    ensures OpAt(e) > 0 ==> IsExpr(e[..OpAt(e)]) && !Dangling(e[..OpAt(e)]) && AllDigits(e[OpAt(e) + 1..])
  {
  }

  lemma OpShows(s: Calc, key: char)
    requires Shows(s) && IsOp(key) && Room(s, key)
    ensures Shows(Press(s, key))
  {
    hide Value, IsExpr, Digits, Decimal, ApplyOp;
    ReadableExpr(s.expr);
    if s.op != NO_OP && s.startNew {
      ExprThenOp(s.expr[..OpAt(s.expr)], key);
    } else {
      AnOperand(s);
      ExprThenOp(s.expr, key);
    }
  }

  /** The value that an operator key or = computes is the value of the expression shown. */
  lemma AnOperand(s: Calc)
    requires Shows(s) && !(s.op != NO_OP && s.startNew)
    ensures !Dangling(s.expr)
    ensures Value(s.expr) == if s.op != NO_OP then ApplyOp(s.pending, s.display, s.op) else s.display
  {
    hide IsExpr, Digits, Decimal, ApplyOp;
    ReadableExpr(s.expr);
  }

  lemma EqualsShows(s: Calc)
    requires Shows(s)
    ensures Shows(Press(s, '='))
    ensures Press(s, '=').expr == Decimal(Press(s, '=').display)
    ensures !Dangling(s.expr) ==> Press(s, '=').display == Value(s.expr)
    ensures Dangling(s.expr) ==>
              Press(s, '=').display == ApplyOp(Value(s.expr), Value(s.expr), s.expr[OpAt(s.expr)])
  {
    hide Value, IsExpr, Digits, Decimal, ApplyOp;
    DecimalReadsBack(Press(s, '=').display);
    NumberIsExpr(Decimal(Press(s, '=').display));
    if Dangling(s.expr) {
      ValueBeforeOp(s.expr);
    } else {
      AnOperand(s);
    }
  }

  lemma NumberIsExpr(e: string)
    requires IsNumber(e) && OpAt(e) == 0
    ensures IsExpr(e) && Value(e) == Number(e)
  {
  }

  lemma ValueBeforeOp(e: string)
    requires IsExpr(e) && Dangling(e)
    ensures IsExpr(e[..OpAt(e)]) && Value(e) == Value(e[..OpAt(e)])
  {
  }

  /** Every key keeps what is shown equal to what is held. */
  lemma PressShows(s: Calc, key: char)
    requires Shows(s) && IsKey(key) && Room(s, key)
    ensures Shows(Press(s, key))
  {
    if IsDigit(key) {
      DigitShows(s, key);
    } else if IsOp(key) {
      OpShows(s, key);
    } else if key == '=' {
      EqualsShows(s);
    } else {
      InitialShows();
    }
  }

  /** A key for which the buffer is full breaks the display, except a zero typed onto the number zero. */
  lemma FullBuffer(s: Calc, key: char)
    requires Shows(s) && IsKey(key) && !Room(s, key) && |s.expr| == BUFFER - 1
    ensures Shows(Press(s, key)) <==> IsDigit(key) && !s.startNew && s.display == 0 && key == '0'
  {
    if s.startNew && s.op == NO_OP { assert s.justEvaluated; }
  }

  // ---- runs of keys ----

  function PressAll(s: Calc, keys: string): Calc
    requires forall k :: 0 <= k < |keys| ==> IsKey(keys[k])
  {
    if keys == "" then s else Press(PressAll(s, keys[..|keys| - 1]), keys[|keys| - 1])
  }

  /** No key of the run finds the buffer full. */
  ghost predicate RoomForAll(s: Calc, keys: string)
  {
    && (forall k :: 0 <= k < |keys| ==> IsKey(keys[k]))
    && (forall k :: 0 <= k < |keys| ==> Room(PressAll(s, keys[..k]), keys[k]))
  }

  /** After any run of keys that fits the buffer the display shows what is held. */
  lemma {:induction false} RunShows(keys: string)
    requires RoomForAll(Initial(), keys)
    ensures Shows(PressAll(Initial(), keys))
  {
    hide Shows, Press, Room;
    if keys == "" {
      InitialShows();
    } else {
      var n := |keys| - 1;
      assert forall k :: 0 <= k < n ==> keys[..n][..k] == keys[..k];
      RunShows(keys[..n]);
      PressShows(PressAll(Initial(), keys[..n]), keys[n]);
    }
  }

  /** A zero in front of an unsigned expression changes nothing. */
  lemma {:induction false} ZeroInFront(e: string)
    requires e != "" && IsExpr(e) && IsDigit(e[0])
    ensures IsExpr("0" + e) && Value("0" + e) == Value(e) && Dangling("0" + e) == Dangling(e)
    ensures OpAt("0" + e) == if OpAt(e) == 0 then 0 else OpAt(e) + 1
    decreases |e|
  {
    hide Digits, IsDigit, IsOp, OpAt, ApplyOp;
    OperatorMoves(e);
    if OpAt(e) == 0 {
      ZeroBeforeNumber(e);
    } else {
      ZeroInFront(e[..OpAt(e)]);
      ZeroBeforeOperand(e);
    }
  }

  lemma ZeroBeforeNumber(e: string)
    requires e != "" && IsExpr(e) && IsDigit(e[0]) && OpAt(e) == 0 == OpAt("0" + e)
    ensures IsExpr("0" + e) && Value("0" + e) == Value(e)
  {
    hide Digits, IsDigit, IsOp, OpAt;
    ZeroIsZero();
    DigitIsNoSign(e[0]);
    ZeroDigits(e);
    assert ("0" + e)[0] == '0';
  }

  lemma ZeroBeforeOperand(e: string)
    requires var i := OpAt(e); i > 0 && IsExpr(e) && OpAt("0" + e) == i + 1 && IsExpr("0" + e[..i])
                               && Dangling("0" + e[..i]) == Dangling(e[..i]) && Value("0" + e[..i]) == Value(e[..i])
    ensures IsExpr("0" + e) && Value("0" + e) == Value(e) && Dangling("0" + e) == Dangling(e)
  {
    hide Digits, IsDigit, IsOp, OpAt, ApplyOp;
    var i, z := OpAt(e), "0" + e;
    assert z[..i + 1] == "0" + e[..i] && z[i + 2..] == e[i + 1..] && z[i + 1] == e[i];
  }

  lemma {:induction false} OperatorMoves(e: string)
    requires e != "" && IsDigit(e[0])
    ensures OpAt("0" + e) == if OpAt(e) == 0 then 0 else OpAt(e) + 1
  {
    if |e| > 1 {
      assert ("0" + e)[..|e|] == "0" + e[..|e| - 1];
      OperatorMoves(e[..|e| - 1]);
    } else {
      DigitIsNoSign(e[0]);
    }
  }

  lemma {:induction false} ZeroDigits(s: string)
    requires AllDigits(s)
    ensures AllDigits("0" + s) && Digits("0" + s) == Digits(s)
  {
    if s == "" {
      ZeroIsZero();
      assert "0" + s == "0";
    } else {
      assert ("0" + s)[..|s|] == "0" + s[..|s| - 1];
      ZeroDigits(s[..|s| - 1]);
    }
  }

  /** A beginning of an unsigned expression is one; before an operator it awaits no number. */
  lemma BeginningIsExpr(p: string, c: char)
    requires p != "" && IsDigit(p[0]) && IsExpr(p + [c])
    ensures IsExpr(p) && (IsDigit(c) || (IsOp(c) && !Dangling(p)))
  {
    var e := p + [c];
    assert e[..|p|] == p && e[0] == p[0];
    DigitIsNoSign(p[0]);
    if OpAt(e) == |p| {
    } else if OpAt(e) > 0 {
      var i := OpAt(e);
      assert e[..i] == p[..i] && e[i + 1..][..|p| - i - 1] == p[i + 1..];
      assert e[i + 1..][|p| - i - 1] == c;
    } else {
      assert e[|p|] == c;
    }
  }

  lemma {:induction false} KeysOfExpr(e: string)
    requires e != "" && IsExpr(e) && IsDigit(e[0])
    ensures forall k :: 0 <= k < |e| ==> IsKey(e[k])
    decreases |e|
  {
    hide IsExpr, IsDigit, IsOp;
    if |e| > 1 {
      var p, c := e[..|e| - 1], e[|e| - 1];
      assert e == p + [c];
      BeginningIsExpr(p, c);
      KeysOfExpr(p);
      forall k | 0 <= k < |e| ensures IsKey(e[k]) {
        if k < |p| { assert e[k] == p[k]; }
      }
    }
  }

  /** Typing an expression shows it, behind the zero that the display starts with. */
  lemma {:induction false} Typing(e: string)
    requires e != "" && IsExpr(e) && IsDigit(e[0]) && |e| < BUFFER - 1
    ensures (forall k :: 0 <= k < |e| ==> IsKey(e[k]))
            && var s := PressAll(Initial(), e); Shows(s) && s.expr == "0" + e && !s.justEvaluated
    decreases |e|
  {
    hide Shows, Value, Digits, IsExpr, OpAt, IsDigit, IsOp, IsKey, Press, PressAll, Room, Initial, Dangling;
    KeysOfExpr(e);
    var p, c := e[..|e| - 1], e[|e| - 1];
    assert e == p + [c];
    PressLast(Initial(), e);
    if p == "" {
      NothingPressed(Initial());
      assert [c] == e;
      FirstKey(c);
    } else {
      BeginningIsExpr(p, c);
      Typing(p);
      ZeroInFront(p);
      NextKey(PressAll(Initial(), p), p, c);
    }
  }

  lemma PressLast(s: Calc, keys: string)
    requires keys != "" && forall k :: 0 <= k < |keys| ==> IsKey(keys[k])
    ensures PressAll(s, keys) == Press(PressAll(s, keys[..|keys| - 1]), keys[|keys| - 1])
  {
    hide Press, IsKey;
  }

  lemma NothingPressed(s: Calc)
    ensures PressAll(s, "") == s
  {
  }

  lemma FirstKey(c: char)
    requires IsDigit(c)
    ensures Shows(Press(Initial(), c)) && Press(Initial(), c).expr == "0" + [c] && !Press(Initial(), c).justEvaluated
  {
    hide Shows;
    InitialShows();
    PressShows(Initial(), c);
  }

  lemma NextKey(s: Calc, p: string, c: char)
    requires Shows(s) && s.expr == "0" + p && !s.justEvaluated && |p| + 1 < BUFFER - 1
    requires IsDigit(c) || (IsOp(c) && !Dangling("0" + p))
    ensures Shows(Press(s, c)) && Press(s, c).expr == "0" + (p + [c]) && !Press(s, c).justEvaluated
  {
    hide Shows;
    AwaitsNumber(s);
    PressShows(s, c);
    assert "0" + (p + [c]) == ("0" + p) + [c];
  }

  lemma AwaitsNumber(s: Calc)
    requires Shows(s)
    ensures s.op != NO_OP && s.startNew ==> Dangling(s.expr)
  {
    hide IsExpr, Value, Digits, IsDigit, IsOp;
  }

  /** Typing an expression and then = gives its value, in decimal. */
  lemma TypedIsEvaluated(e: string)
    requires e != "" && IsExpr(e) && IsDigit(e[0]) && !Dangling(e) && |e| < BUFFER - 1
    ensures (forall k :: 0 <= k < |e| ==> IsKey(e[k]))
            && var s := Press(PressAll(Initial(), e), '='); s.display == Value(e) && s.expr == Decimal(Value(e))
  {
    hide Shows, Value, IsExpr, OpAt, IsDigit, IsOp, Press;
    Typing(e);
    ZeroInFront(e);
    EqualsShows(PressAll(Initial(), e));
  }

  // ---- a full buffer ----

  /** The keys 1 and + in turn. */
  function OnesAdded(n: nat): (s: string)
    ensures |s| == n && (n > 0 ==> s[0] == '1')
  {
    if n == 0 then "" else OnesAdded(n - 1) + [if n % 2 == 1 then '1' else '+']
  }

  lemma {:induction false} OnesAddedIsExpr(n: nat)
    requires n > 0
    ensures IsExpr(OnesAdded(n)) && (Dangling(OnesAdded(n)) <==> n % 2 == 0)
  {
    hide IsExpr, Digits, AllDigits, OpAt;
    var e := OnesAdded(n - 1);
    if n == 1 {
      OneDigit('1');
      assert OnesAdded(1) == ['1'];
    } else {
      OnesAddedIsExpr(n - 1);
      if n % 2 == 1 {
        OperandThenDigit(e, '1');
      } else {
        OperatorBehind(e, '+');
      }
    }
  }

  lemma OperatorBehind(e: string, c: char)
    requires e != "" && IsExpr(e) && !Dangling(e) && IsOp(c)
    ensures IsExpr(e + [c]) && Dangling(e + [c])
  {
    hide IsOp;
    AppendOp(e, c);
  }

  /** Thirty keys fill the buffer and one more breaks the display. */
  lemma FullBufferReached()
    ensures forall k :: 0 <= k < 30 ==> IsKey(OnesAdded(30)[k])
    ensures var s := PressAll(Initial(), OnesAdded(30));
            Shows(s) && |s.expr| == BUFFER - 1 && !Room(s, '1') && !Shows(Press(s, '1'))
  {
    hide Shows, Digits, IsExpr, Press, PressAll, Initial, Value, OnesAdded;
    var e := OnesAdded(30);
    OnesAddedIsExpr(30);
    Typing(e);
    var s := PressAll(Initial(), e);
    ZeroBefore(e);
    DanglingStarts(s);
    FullBuffer(s, '1');
  }

  lemma ZeroBefore(e: string)
    requires Dangling(e)
    ensures Dangling("0" + e)
  {
    assert ("0" + e)[|e|] == e[|e| - 1];
  }

  /** Behind an operator a new number starts. */
  lemma DanglingStarts(s: Calc)
    requires Shows(s) && Dangling(s.expr)
    ensures s.op != NO_OP && s.startNew
  {
    hide IsExpr, Value, Digits, IsDigit, IsOp;
  }
}
