// shell/shell.c: calc_number, calc_term and calc_expr over the shared cursor
// calc_ptr and the flag calc_error.
module Calculator {
  import opened Machine
  import opened CalcGrammar

  class Calc {
    const text: string  // a C string: reading at its end gives the NUL
    var ptr: nat
    var error: bool

    constructor (text: string)
      ensures this.text == text && ptr == 0 && !error
    {
      this.text, ptr, error := text, 0, false;
    }

    function Cur(): char
      requires ptr <= |text|
      reads this
    {
      if ptr < |text| then text[ptr] else '\0'
    }

    // Where ptr is after reading up to rest.
    ghost predicate Read(p: Parsed, start: nat)
      reads this
    {
      start <= ptr <= |text| && text[ptr..] == p.rest && error == p.err
    }

    method SkipBlanks()
      requires ptr <= |text|
      modifies this`ptr
      ensures old(ptr) <= ptr <= |text|
      ensures text[ptr..] == SkipSpaces(old(text[ptr..]))
    {
      while Cur() == ' '
        invariant old(ptr) <= ptr <= |text|
        invariant SkipSpaces(text[ptr..]) == SkipSpaces(old(text[ptr..]))
        decreases |text| - ptr
      {
        Rest(text, ptr);
        ptr := ptr + 1;
      }
    }

    // Each method returns nothing exactly when a division on the way traps, after
    // which the kernel does not go on. The cursor never passes the NUL.
    method CalcNumber() returns (r: Option<int>)
      requires ptr <= |text| && !error
      modifies this
      ensures r == Returned(Number(old(text[ptr..])))
      ensures r.Some? ==> Read(Number(old(text[ptr..])), old(ptr))
      decreases |text| - ptr, 1
    {
      hide SkipSpaces, Operand;
      SkipBlanks();
      Rest(text, ptr);
      if Cur() == '-' {
        ptr := ptr + 1;
        r := CalcOperand(true);
      } else {
        r := CalcOperand(false);
      }
    }

    // calc_number after spaces and sign.
    method CalcOperand(neg: bool) returns (r: Option<int>)
      requires ptr <= |text| && !error
      modifies this
      ensures r == Returned(Operand(old(text[ptr..]), neg))
      ensures r.Some? ==> Read(Operand(old(text[ptr..]), neg), old(ptr))
      decreases |text| - ptr, 0
    {
      hide Expr, Digits;
      Rest(text, ptr);
      if Cur() == '(' {
        ptr := ptr + 1;
        r := CalcExpr();
        if r == None { return None; }
        Rest(text, ptr);
        if Cur() == ')' { ptr := ptr + 1; }
        return Some(Signed(neg, r.value));
      }
      if Cur() < '0' || Cur() > '9' {
        error := true;
        return Some(0);
      }
      var val := CalcDigits();
      return Some(Signed(neg, val));
    }

    method CalcDigits() returns (val: int)
      requires ptr <= |text| && !error
      modifies this`ptr
      ensures val == Digits(old(text[ptr..]), 0).val && Read(Digits(old(text[ptr..]), 0), old(ptr))
    {
      val := 0;
      while '0' <= Cur() <= '9'
        invariant old(ptr) <= ptr <= |text|
        invariant Digits(text[ptr..], val) == Digits(old(text[ptr..]), 0)
        decreases |text| - ptr
      {
        Rest(text, ptr);
        val := Wrap32(val * 10 + (Cur() as int - '0' as int));
        ptr := ptr + 1;
      }
    }

    method CalcTerm() returns (r: Option<int>)
      requires ptr <= |text| && !error
      modifies this
      ensures r == Returned(Term(old(text[ptr..])))
      ensures r.Some? ==> Read(Term(old(text[ptr..])), old(ptr))
      decreases |text| - ptr, 2
    {
      hide Number, SkipSpaces, Wrap32, TruncDiv, TruncMod, Term, TermTail, After;
      ghost var goal := Term(text[ptr..]);
      TermStarts(text[ptr..]);
      r := CalcNumber();
      if r == None { return None; }
      var val := r.value;
      ghost var done := Number(old(text[ptr..])).divs;
      while !error
        invariant old(ptr) <= ptr <= |text| && TRAP !in done
        invariant if error then val == goal.val && Read(goal, old(ptr)) && TRAP !in goal.divs
          else goal == After(done, TermTail(val, text[ptr..]))
        decreases !error, |text| - ptr
      {
        ProductRound(done, val, text[ptr..]);
        SkipBlanks();
        Rest(text, ptr);
        var c := Cur();
        if c == '*' {
          ptr := ptr + 1;
          ghost var p := Number(text[ptr..]);
          r := CalcNumber();
          if r == None { return None; }
          done := done + p.divs;
          val := Wrap32(val * r.value);
        } else if c == '/' || c == '%' {
          ptr := ptr + 1;
          ghost var p := Number(text[ptr..]);
          r := CalcNumber();
          if r == None { return None; }
          var d := r.value;
          done := done + p.divs;
          if d == 0 {
            error := true;
            return Some(0);
          }
          if Division(val, d) == TRAP { return None; }
          done := done + [Division(val, d)];
          val := Wrap32(if c == '/' then TruncDiv(val, d) else TruncMod(val, d));
        } else {
          break;
        }
      }
      return Some(val);
    }

    method CalcExpr() returns (r: Option<int>)
      requires ptr <= |text| && !error
      modifies this
      ensures r == Returned(Expr(old(text[ptr..])))
      ensures r.Some? ==> Read(Expr(old(text[ptr..])), old(ptr))
      decreases |text| - ptr, 3
    {
      hide Term, SkipSpaces, Wrap32, Expr, ExprTail, After;
      ghost var goal := Expr(text[ptr..]);
      ExprStarts(text[ptr..]);
      r := CalcTerm();
      if r == None { return None; }
      var val := r.value;
      ghost var done := Term(old(text[ptr..])).divs;
      while !error
        invariant old(ptr) <= ptr <= |text| && TRAP !in done
        invariant if error then val == goal.val && Read(goal, old(ptr)) && TRAP !in goal.divs
          else goal == After(done, ExprTail(val, text[ptr..]))
        decreases !error, |text| - ptr
      {
        SumRound(done, val, text[ptr..]);
        SkipBlanks();
        Rest(text, ptr);
        var c := Cur();
        if c == '+' {
          ptr := ptr + 1;
          ghost var p := Term(text[ptr..]);
          r := CalcTerm();
          if r == None { return None; }
          done := done + p.divs;
          val := Wrap32(val + r.value);
        } else if c == '-' {
          ptr := ptr + 1;
          ghost var p := Term(text[ptr..]);
          r := CalcTerm();
          if r == None { return None; }
          done := done + p.divs;
          val := Wrap32(val - r.value);
        } else {
          break;
        }
      }
      return Some(val);
    }
  }

  lemma TermStarts(s: string)
    ensures var p := Number(s);
      Term(s) == (if p.err then p else After(p.divs, TermTail(p.val, p.rest))) && Prefixed(p.divs, Term(s))
  {
  }

  lemma ExprStarts(s: string)
    ensures var p := Term(s);
      Expr(s) == (if p.err then p else After(p.divs, ExprTail(p.val, p.rest))) && Prefixed(p.divs, Expr(s))
  {
  }

  // The divisions ds are among those of p.
  ghost predicate Prefixed(ds: seq<Division>, p: Parsed) { forall d :: d in ds ==> d in p.divs }

  // One round of calc_term's loop, after the divisions done.
  lemma ProductRound(done: seq<Division>, val: int, s: string)
    ensures var s1 := SkipSpaces(s);
      var goal := After(done, TermTail(val, s));
      if StartsWith(s1, '*') then
        var p := Number(s1[1..]);
        var ds := done + p.divs;
        var v := Wrap32(val * p.val);
        && goal == (if p.err then Parsed(v, p.rest, true, ds) else After(ds, TermTail(v, p.rest)))
        && Prefixed(ds, goal)
      else if StartsWith(s1, '/') || StartsWith(s1, '%') then
        var p := Number(s1[1..]);
        if p.val == 0 then goal == Parsed(0, p.rest, true, done + p.divs)
        else
          var ds := done + p.divs + [Division(val, p.val)];
          var v := Wrap32(if s1[0] == '/' then TruncDiv(val, p.val) else TruncMod(val, p.val));
          && goal == (if p.err then Parsed(v, p.rest, true, ds) else After(ds, TermTail(v, p.rest)))
          && Prefixed(ds, goal)
      else goal == Parsed(val, s1, false, done)
  {
    hide Number, Wrap32, TruncDiv, TruncMod, SkipSpaces;
  }

  // One round of calc_expr's loop.
  lemma SumRound(done: seq<Division>, val: int, s: string)
    ensures var s1 := SkipSpaces(s);
      var goal := After(done, ExprTail(val, s));
      if StartsWith(s1, '+') || StartsWith(s1, '-') then
        var p := Term(s1[1..]);
        var ds := done + p.divs;
        var v := Wrap32(if s1[0] == '+' then val + p.val else val - p.val);
        && goal == (if p.err then Parsed(v, p.rest, true, ds) else After(ds, ExprTail(v, p.rest)))
        && Prefixed(ds, goal)
      else goal == Parsed(val, s1, false, done)
  {
    hide Term, Wrap32, SkipSpaces;
  }

  // What a caller gets back, if anything.
  function Returned(p: Parsed): Option<int> {
    if TRAP in p.divs then None else Some(p.val)
  }

  // Moving the cursor one character on.
  lemma Rest(text: string, ptr: nat)
    requires ptr <= |text|
    ensures ptr < |text| ==> text[ptr..][0] == text[ptr] && text[ptr..][1..] == text[ptr + 1..]
  {
  }
}
