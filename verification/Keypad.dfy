/** The calculator's static state and its button handler. */
module Keypad {
  import opened Calculator

  /** The decimal digits of `val`, written to the start of `out`; the length is returned. */
  method ItoaDec(val: int, out: array<char>) returns (i: nat)
    requires InInt32(val) && out.Length >= 12
    modifies out
    ensures i <= 11 && out[..i] == Decimal(val) && out[i] == '\0'
  {
    hide Dec, Digits;
    var neg := val < 0;
    var uval: nat := if neg then -val else val;
    AtMostTenDigits(val);
    assert |Dec(uval)| <= 10;
    var tmp, n := LowDigits(uval);
    i := 0;
    if neg {
      out[i] := '-';
      i := i + 1;
    }
    i := CopyReversed(tmp, n, out, i, Dec(uval));
    out[i] := '\0';
  }

  /** Append the first `n` characters of `tmp` to `out`, the last first. */
  method CopyReversed(tmp: array<char>, n: nat, out: array<char>, from: nat, ghost digits: string) returns (i: nat)
    requires tmp != out && n == |digits| <= tmp.Length && from + n < out.Length
    requires forall k :: 0 <= k < n ==> tmp[k] == digits[n - 1 - k]
    modifies out
    ensures i == from + n && out[..i] == old(out[..from]) + digits
  {
    i := from;
    var m := n;
    while m > 0
      invariant 0 <= m <= n && i == from + n - m
      invariant out[..i] == old(out[..from]) + digits[..n - m]
    {
      m := m - 1;
      out[i] := tmp[m];
      i := i + 1;
    }
  }

  /** The digits of a number, the lowest first. */
  method LowDigits(val: nat) returns (tmp: array<char>, n: nat)
    requires |Dec(val)| <= 12
    ensures fresh(tmp) && tmp.Length == 12 && n == |Dec(val)|
    ensures forall k :: 0 <= k < n ==> tmp[k] == Dec(val)[n - 1 - k]
  {
    hide Dec;
    tmp := new char[12](_ => '\0');
    n := 0;
    var uval := val;
    if uval == 0 {
      DecOfZero();
      tmp[n] := '0';
      n := n + 1;
      return;
    }
    ghost var done: string := "";
    while uval > 0
      invariant n == |done| <= |Dec(val)| && forall k :: 0 <= k < n ==> tmp[k] == done[n - 1 - k]
      invariant Dec(val) == (if uval > 0 then Dec(uval) else "") + done
    {
      DecStep(uval);
      var c := CharOf(uval % 10);
      tmp[n] := c;
      n := n + 1;
      uval := uval / 10;
      done := [c] + done;
    }
  }

  lemma DecOfZero()
    ensures Dec(0) == "0"
  {
  }

  lemma DecStep(u: nat)
    requires u > 0
    ensures Dec(u) == (if u / 10 > 0 then Dec(u / 10) else "") + [CharOf(u % 10)]
  {
  }

  lemma AtMostTenDigits(v: int)
    requires InInt32(v)
    ensures |Dec(if v < 0 then -v else v)| <= 10
  {
    DecimalLength(if v < 0 then v else -v);
    if v == 0 { assert |Dec(0)| == 1; }
  }

  class Pad {
    var displayValue: int
    var pendingValue: int
    var pendingOp: char
    var startNewNumber: bool
    const exprBuf: array<char>
    var exprLen: nat
    var justEvaluated: bool

    ghost predicate Valid()
      reads this, exprBuf
    {
      && InInt32(displayValue) && InInt32(pendingValue)
      && exprBuf.Length == BUFFER && exprLen < BUFFER && exprBuf[exprLen] == '\0'
    }

    ghost function Model(): Calc
      requires exprLen <= exprBuf.Length
      reads this, exprBuf
    {
      Calc(displayValue, pendingValue, pendingOp, startNewNumber, exprBuf[..exprLen], justEvaluated)
    }

    constructor ()
      ensures Valid() && Model() == Initial() && fresh(exprBuf)
    {
      displayValue, pendingValue, pendingOp, startNewNumber, justEvaluated := 0, 0, NO_OP, true, false;
      exprBuf := new char[BUFFER](i => if i == 0 then '0' else '\0');
      exprLen := 1;
    }

    method ExprReset()
      requires Valid()
      modifies this`exprLen, exprBuf
      ensures Valid() && exprLen == 0
    {
      exprLen := 0;
      exprBuf[0] := '\0';
    }

    method ExprAppend(c: char)
      requires Valid()
      modifies this`exprLen, exprBuf
      ensures Valid() && exprBuf[..exprLen] == Append(old(exprBuf[..exprLen]), c)
    {
      if exprLen < BUFFER - 1 {
        exprBuf[exprLen] := c;
        exprLen := exprLen + 1;
        exprBuf[exprLen] := '\0';
      }
    }

    method OnDigit(key: char)
      requires Valid() && IsDigit(key) && InInt32(Press(Model(), key).display)
      modifies this, exprBuf
      ensures Valid() && Model() == Press(old(Model()), key)
    {
      hide Dec, IsDigit;
      if justEvaluated {
        ExprReset();
        justEvaluated := false;
      }
      var d := DigitOf(key);
      displayValue := if startNewNumber then d else displayValue * 10 + d;
      startNewNumber := false;
      ExprAppend(key);
    }

    method OnOperator(key: char)
      requires Valid() && IsOp(key) && InInt32(Press(Model(), key).display)
      modifies this, exprBuf
      ensures Valid() && Model() == Press(old(Model()), key)
    {
      hide ApplyOp, Decimal;
      justEvaluated := false;
      if pendingOp != NO_OP && startNewNumber {
        if exprLen > 0 { exprBuf[exprLen - 1] := key; }
      } else {
        if pendingOp != NO_OP { displayValue := ApplyOp(pendingValue, displayValue, pendingOp); }
        ExprAppend(key);
      }
      pendingValue := displayValue;
      pendingOp := key;
      startNewNumber := true;
    }

    /** A button is pressed; the value it computes must fit an int32_t. */
    method OnButton(key: char)
      requires Valid() && IsKey(key) && InInt32(Press(Model(), key).display)
      modifies this, exprBuf
      ensures Valid() && Model() == Press(old(Model()), key)
      ensures old(Shows(Model())) && Room(old(Model()), key) ==> Shows(Model())
    {
      hide Shows, Dec, Room, ApplyOp, Decimal, IsDigit, IsOp;
      ghost var s := Model();
      if Shows(s) && Room(s, key) { PressShows(s, key); }
      if IsDigit(key) {
        OnDigit(key);
      } else if key == 'C' {
        displayValue, pendingValue, pendingOp, startNewNumber, justEvaluated := 0, 0, NO_OP, true, false;
        ExprReset();
        ExprAppend('0');
      } else if key == '=' {
        if pendingOp != NO_OP {
          displayValue := ApplyOp(pendingValue, displayValue, pendingOp);
          pendingOp := NO_OP;
        }
        startNewNumber := true;
        exprLen := ItoaDec(displayValue, exprBuf);
        justEvaluated := true;
      } else {
        OnOperator(key);
      }
    }
  }
}
