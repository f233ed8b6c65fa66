// The calculator of shell/shell.c as functions from the text still to read:
// calc_number, calc_term and calc_expr with their loops.
module CalcGrammar {
  import opened Machine

  // A division carried out. The processor raises an exception on one of them, the
  // quotient of the least number by -1, and the kernel then halts.
  datatype Division = Division(dividend: int, divisor: int)

  const TRAP := Division(-0x8000_0000, -1)

  // Value returned, text left at calc_ptr, calc_error, and the divisions carried
  // out on the way, in order, as if none of them trapped.
  datatype Parsed = Parsed(val: int, rest: string, err: bool, divs: seq<Division>)

  // p, after the divisions ds.
  function After(ds: seq<Division>, p: Parsed): (r: Parsed)
    ensures |r.rest| == |p.rest|
  {
    p.(divs := ds + p.divs)
  }

  predicate StartsWith(s: string, c: char) { s != "" && s[0] == c }
  predicate StartsWithDigit(s: string) { s != "" && '0' <= s[0] <= '9' }

  function SkipSpaces(s: string): (r: string)
    ensures |r| <= |s| && !StartsWith(r, ' ')
  {
    if StartsWith(s, ' ') then SkipSpaces(s[1..]) else s
  }

  // The digit loop of calc_number.
  function Digits(s: string, val: int): (r: Parsed)
    ensures |r.rest| <= |s| && !r.err && r.divs == []
    decreases |s|
  {
    if StartsWithDigit(s) then Digits(s[1..], Wrap32(val * 10 + (s[0] as int - '0' as int)))
    else Parsed(val, s, false, [])
  }

  function Signed(neg: bool, val: int): int { if neg then Wrap32(-val) else val }

  function Number(s: string): (r: Parsed)
    ensures |r.rest| <= |s|
    decreases |s|, 1
  {
    var s1 := SkipSpaces(s);
    if StartsWith(s1, '-') then Operand(s1[1..], true) else Operand(s1, false)
  }

  // calc_number after spaces and sign.
  function Operand(s: string, neg: bool): (r: Parsed)
    ensures |r.rest| <= |s|
    decreases |s|, 0
  {
    if StartsWith(s, '(') then
      var p := Expr(s[1..]);
      Parsed(Signed(neg, p.val), if StartsWith(p.rest, ')') then p.rest[1..] else p.rest, p.err, p.divs)
    else if !StartsWithDigit(s) then Parsed(0, s, true, [])
    else
      var p := Digits(s, 0);
      Parsed(Signed(neg, p.val), p.rest, false, [])
  }

  function Term(s: string): (r: Parsed)
    ensures |r.rest| <= |s|
    decreases |s|, 3
  {
    var p := Number(s);
    if p.err then p else After(p.divs, TermTail(p.val, p.rest))
  }

  // The loop of calc_term with val computed so far.
  function TermTail(val: int, s: string): (r: Parsed)
    ensures |r.rest| <= |s|
    decreases |s|, 2
  {
    var s1 := SkipSpaces(s);
    if StartsWith(s1, '*') then
      var p := Number(s1[1..]);
      var v := Wrap32(val * p.val);
      if p.err then Parsed(v, p.rest, true, p.divs) else After(p.divs, TermTail(v, p.rest))
    else if StartsWith(s1, '/') || StartsWith(s1, '%') then
      var p := Number(s1[1..]);
      if p.val == 0 then Parsed(0, p.rest, true, p.divs)
      else
        var ds := p.divs + [Division(val, p.val)];
        var v := Wrap32(if s1[0] == '/' then TruncDiv(val, p.val) else TruncMod(val, p.val));
        if p.err then Parsed(v, p.rest, true, ds) else After(ds, TermTail(v, p.rest))
    else Parsed(val, s1, false, [])
  }

  function Expr(s: string): (r: Parsed)
    ensures |r.rest| <= |s|
    decreases |s|, 5
  {
    var p := Term(s);
    if p.err then p else After(p.divs, ExprTail(p.val, p.rest))
  }

  // The loop of calc_expr with val computed so far.
  function ExprTail(val: int, s: string): (r: Parsed)
    ensures |r.rest| <= |s|
    decreases |s|, 4
  {
    var s1 := SkipSpaces(s);
    if StartsWith(s1, '+') || StartsWith(s1, '-') then
      var p := Term(s1[1..]);
      var v := Wrap32(if s1[0] == '+' then val + p.val else val - p.val);
      if p.err then Parsed(v, p.rest, true, p.divs) else After(p.divs, ExprTail(v, p.rest))
    else Parsed(val, s1, false, [])
  }
}
