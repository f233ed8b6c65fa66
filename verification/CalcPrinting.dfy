// Expression trees, the texts that denote them, and the theorem that the
// calculator computes the value of the tree from any of these texts.
module CalcPrinting {
  import opened Machine
  import opened CalcGrammar
  import N = Numerals

  datatype Op = Add | Sub | Mul | Div | Mod

  // A tree together with the number of spaces at every place where the text may
  // have any: before an operand or opening parenthesis (lead), before a closing
  // parenthesis (gap) and before an operator (before). None may follow a sign.
  datatype Tree =
    | Lit(lead: nat, n: nat)
    | Neg(lead: nat, body: Tree, gap: nat)
    | Bin(lead: nat, left: Tree, before: nat, op: Op, right: Tree, gap: nat)

  function Symbol(op: Op): char {
    match op case Add => '+' case Sub => '-' case Mul => '*' case Div => '/' case Mod => '%'
  }

  function Level(op: Op): nat { if op.Add? || op.Sub? then 0 else 1 }

  function Prec(t: Tree): nat { if t.Bin? then Level(t.op) else 2 }

  function Spaces(k: nat): string { if k == 0 then "" else " " + Spaces(k - 1) }

  function Decimal(n: nat): string {
    if n == 0 then "0" else N.Digits(n, 10)
  }

  // The text of t where an operand of the given level is expected: parentheses
  // appear exactly where t binds less tightly.
  function Print(t: Tree, level: nat): string
    decreases t, 1
  {
    if Prec(t) >= level then Bare(t)
    else Spaces(t.lead) + "(" + Bare(t) + Spaces(if t.Lit? then 0 else t.gap) + ")"
  }

  function Bare(t: Tree): string
    decreases t, 0
  {
    match t
    case Lit(lead, n) => Spaces(lead) + Decimal(n)
    case Neg(lead, body, gap) =>
      Spaces(lead) + "-" + (if body.Lit? then Decimal(body.n) else "(" + Bare(body) + Spaces(gap) + ")")
    case Bin(_, l, before, op, r, _) =>
      Print(l, Level(op)) + (Spaces(before) + ([Symbol(op)] + Print(r, Level(op) + 1)))
  }

  // -- meaning ---------------------------------------------------------------

  function Compute(op: Op, a: int, b: int): int {
    match op
    case Add => a + b
    case Sub => a - b
    case Mul => a * b
    case Div => if b == 0 then 0 else TruncDiv(a, b)
    case Mod => if b == 0 then 0 else TruncMod(a, b)
  }

  function Eval(t: Tree): int {
    match t
    case Lit(_, n) => n
    case Neg(_, body, _) => -Eval(body)
    case Bin(_, l, _, op, r, _) => Compute(op, Eval(l), Eval(r))
  }

  predicate InInt32(x: int) { -0x8000_0000 <= x < 0x8000_0000 }

  // No zero divisor and no 32-bit overflow anywhere, quotients included.
  predicate Defined(t: Tree) {
    && InInt32(Eval(t))
    && match t
       case Lit(_, n) => true
       case Neg(_, body, _) => Defined(body)
       case Bin(_, l, _, op, r, _) =>
         && Defined(l) && Defined(r)
         && (op.Div? || op.Mod? ==> Eval(r) != 0 && InInt32(TruncDiv(Eval(l), Eval(r))))
  }

  // The value in 32-bit registers, each operation wrapping around.
  function Eval32(t: Tree): int {
    match t
    case Lit(_, n) => Wrap32(n)
    case Neg(_, body, _) => Wrap32(-Eval32(body))
    case Bin(_, l, _, op, r, _) => Wrap32(Compute(op, Eval32(l), Eval32(r)))
  }

  // No divisor is zero.
  predicate Computable(t: Tree) {
    match t
    case Lit(_, n) => true
    case Neg(_, body, _) => Computable(body)
    case Bin(_, l, _, op, r, _) => Computable(l) && Computable(r) && (op.Div? || op.Mod? ==> Eval32(r) != 0)
  }

  // The divisions in the order of evaluation.
  function Divisions(t: Tree): seq<Division> {
    match t
    case Lit(_, n) => []
    case Neg(_, body, _) => Divisions(body)
    case Bin(_, l, _, op, r, _) =>
      Divisions(l) + (Divisions(r) + if op.Div? || op.Mod? then [Division(Eval32(l), Eval32(r))] else [])
  }

  // Without overflow the registers hold the true value, and nothing traps.
  lemma {:induction false} DefinedIsExact(t: Tree)
    requires Defined(t)
    ensures Computable(t) && Eval32(t) == Eval(t) && TRAP !in Divisions(t)
  {
    hide Wrap32, TruncDiv, TruncMod;
    match t {
      case Lit(_, n) =>
      case Neg(_, body, _) => DefinedIsExact(body);
      case Bin(_, l, _, op, r, _) =>
        DefinedIsExact(l);
        DefinedIsExact(r);
        LeastByMinusOne();
    }
  }

  lemma LeastByMinusOne()
    ensures TruncDiv(-0x8000_0000, -1) == 0x8000_0000
  {
  }

  // -- what may follow a text ----------------------------------------------------

  lemma {:induction false} SkipSome(k: nat, s: string)
    ensures SkipSpaces(Spaces(k) + s) == SkipSpaces(s)
    ensures k == 0 ==> Spaces(k) + s == s
    ensures !StartsWithDigit(s) ==> !StartsWithDigit(Spaces(k) + s)
  {
    if k == 0 {
      assert Spaces(k) + s == s;
    } else {
      var t := Spaces(k - 1);
      SkipSome(k - 1, s);
      assert Spaces(k) == " " + t && (" " + t) + s == " " + (t + s);
      assert (" " + (t + s))[1..] == t + s;
    }
  }

  lemma {:induction false} SkipTwice(s: string)
    ensures SkipSpaces(SkipSpaces(s)) == SkipSpaces(s)
  {
  }

  // The text is not continued as a product.
  predicate NoProduct(s: string) {
    var r := SkipSpaces(s);
    !StartsWithDigit(s) && !StartsWith(r, '*') && !StartsWith(r, '/') && !StartsWith(r, '%')
  }

  // -- numerals ----------------------------------------------------------------

  lemma {:induction false} ReadDigits(n: nat, s: string)
    ensures Digits(N.Digits(n, 10) + s, 0) == Digits(s, Wrap32(n))
    ensures n > 0 ==> StartsWithDigit(N.Digits(n, 10) + s)
  {
    hide N.Digit, Wrap32;
    if n == 0 {
      assert N.Digits(n, 10) + s == s;
    } else {
      var d := N.Digit(n % 10);
      assert N.Digits(n, 10) + s == N.Digits(n / 10, 10) + ([d] + s);
      ReadDigits(n / 10, [d] + s);
      WrapNextDigit(n / 10, n % 10);
      assert ([d] + s)[1..] == s;
      if n / 10 == 0 { assert N.Digits(n / 10, 10) + ([d] + s) == [d] + s; }
    }
  }

  // Accumulating a digit in a register that has wrapped around.
  lemma WrapNextDigit(q: nat, d: nat)
    ensures Wrap32(Wrap32(q) * 10 + d) == Wrap32(10 * q + d)
  {
    WrapsBack(q);
    var k :| q == Wrap32(q) + TWO_32 * k;
    var x := Wrap32(q) * 10 + d;
    WrapsBack(x);
    var l :| x == Wrap32(x) + TWO_32 * l;
    assert 10 * q + d == Wrap32(x) + TWO_32 * (l + 10 * k);
    WrapIsUnique(10 * q + d, Wrap32(x), l + 10 * k);
  }

  lemma WrapsBack(x: int)
    ensures exists k :: x == Wrap32(x) + TWO_32 * k
  {
    assert x == Wrap32(x) + TWO_32 * ((x + 0x8000_0000) / TWO_32);
  }

  lemma ReadDecimal(n: nat, s: string)
    ensures Digits(Decimal(n) + s, 0) == Digits(s, Wrap32(n))
    ensures StartsWithDigit(Decimal(n) + s)
  {
    if n == 0 {
      assert ("0" + s)[1..] == s;
    } else {
      ReadDigits(n, s);
    }
  }

  // -- the theorem, one grammar level at a time ------------------------------------

  lemma NumberSkips(k: nat, s: string)
    ensures Number(Spaces(k) + s) == Number(s)
  {
    SkipSome(k, s);
  }

  // The text of an operation, cut where the parser cuts it.
  lemma PrintBin(t: Tree, s: string)
    requires t.Bin?
    ensures Print(t, Level(t.op)) + s ==
      Print(t.left, Level(t.op)) + (Spaces(t.before) + ([Symbol(t.op)] + (Print(t.right, Level(t.op) + 1) + s)))
  {
  }

  lemma PrintParentheses(t: Tree, gap: nat, s: string)
    ensures "(" + Bare(t) + Spaces(gap) + ")" + s == "(" + (Print(t, 0) + (Spaces(gap) + (")" + s)))
  {
  }

  lemma AfterTwice(a: seq<Division>, b: seq<Division>, p: Parsed)
    ensures After(a, After(b, p)) == After(a + b, p)
  {
  }

  function Rank(t: Tree): nat { if Prec(t) == 2 then 0 else 6 }

  // What is left in the registers once t has been read.
  function Result(t: Tree, s: string): Parsed {
    Parsed(Eval32(t), s, false, Divisions(t))
  }

  lemma {:induction false} ReadNumber(t: Tree, s: string)
    requires Computable(t) && !StartsWithDigit(s)
    ensures Number(Print(t, 2) + s) == Result(t, s)
    decreases t, Rank(t)
  {
    hide Expr, Wrap32, Decimal, Number, Operand, Digits;
    match t {
      case Lit(lead, n) =>
        assert Print(t, 2) + s == Spaces(lead) + (Decimal(n) + s);
        NumberSkips(lead, Decimal(n) + s);
        ReadDecimal(n, s);
        PlainNumber(Decimal(n) + s);
        OperandDigits(Decimal(n) + s, false);
        DigitsEnd(s, Wrap32(n));
      case Neg(lead, body, gap) =>
        ReadNeg(t, s);
      case Bin(lead, _, _, _, _, gap) =>
        var u := "(" + Bare(t) + Spaces(gap) + ")" + s;
        assert Print(t, 2) + s == Spaces(lead) + u;
        NumberSkips(lead, u);
        ReadParentheses(t, gap, s);
        PlainNumber(u);
        OperandParentheses(u, false);
        assert (")" + s)[1..] == s;
    }
  }

  lemma PlainNumber(u: string)
    requires u != "" && u[0] != ' ' && u[0] != '-'
    ensures Number(u) == Operand(u, false)
  {
    hide Operand;
  }

  lemma MinusSign(u: string)
    ensures Number("-" + u) == Operand(u, true)
  {
    hide Operand;
    assert ("-" + u)[1..] == u;
  }

  lemma OperandDigits(u: string, neg: bool)
    requires StartsWithDigit(u)
    ensures var p := Digits(u, 0); Operand(u, neg) == Parsed(Signed(neg, p.val), p.rest, false, [])
  {
    hide Digits, Expr;
  }

  lemma DigitsEnd(s: string, val: int)
    requires !StartsWithDigit(s)
    ensures Digits(s, val) == Parsed(val, s, false, [])
  {
  }

  lemma OperandParentheses(u: string, neg: bool)
    requires StartsWith(u, '(')
    ensures var p := Expr(u[1..]);
      Operand(u, neg) ==
      Parsed(Signed(neg, p.val), if StartsWith(p.rest, ')') then p.rest[1..] else p.rest, p.err, p.divs)
  {
    hide Expr;
  }

  lemma {:induction false} ReadNeg(t: Tree, s: string)
    requires Computable(t) && t.Neg? && !StartsWithDigit(s)
    ensures Number(Print(t, 2) + s) == Result(t, s)
    decreases t.body, 9
  {
    hide Expr, Wrap32, Decimal, Number, Operand, Digits;
    if t.body.Lit? {
      var u := Decimal(t.body.n) + s;
      assert Print(t, 2) + s == Spaces(t.lead) + ("-" + u);
      NumberSkips(t.lead, "-" + u);
      MinusSign(u);
      ReadDecimal(t.body.n, s);
      OperandDigits(u, true);
      DigitsEnd(s, Wrap32(t.body.n));
      assert Eval32(t.body) == Wrap32(t.body.n) && Divisions(t.body) == [];
    } else {
      var u := "(" + Bare(t.body) + Spaces(t.gap) + ")" + s;
      assert Print(t, 2) + s == Spaces(t.lead) + ("-" + u);
      NumberSkips(t.lead, "-" + u);
      MinusSign(u);
      ReadParentheses(t.body, t.gap, s);
      OperandParentheses(u, true);
      assert (")" + s)[1..] == s;
    }
  }

  // A parenthesised tree is read back, and what follows it is left alone.
  lemma {:induction false} ReadParentheses(t: Tree, gap: nat, s: string)
    requires Computable(t)
    ensures var u := "(" + Bare(t) + Spaces(gap) + ")" + s;
      u[0] == '(' && Expr(u[1..]) == Result(t, ")" + s)
    decreases t, 5
  {
    var v := Spaces(gap) + (")" + s);
    PrintParentheses(t, gap, s);
    assert ("(" + (Print(t, 0) + v))[1..] == Print(t, 0) + v;
    SkipSome(gap, ")" + s);
    hide Print, Bare, Expr, Eval32, Computable;
    ReadExpr(t, v);
  }

  // One round of calc_term's loop.
  lemma ProductStep(val: int, k: nat, op: Op, u: string)
    requires op.Mul? || op.Div? || op.Mod?
    ensures var p := Number(u);
      var ds := p.divs + if op.Mul? then [] else [Division(val, p.val)];
      !p.err && (op.Mul? || p.val != 0) ==>
        TermTail(val, Spaces(k) + ([Symbol(op)] + u)) == After(ds, TermTail(Wrap32(Compute(op, val, p.val)), p.rest))
  {
    hide Number, Wrap32, TruncDiv, TruncMod;
    var c := [Symbol(op)] + u;
    SkipSome(k, c);
    assert c[1..] == u;
    assert Number(u).divs + [] == Number(u).divs;
  }

  lemma {:induction false} ReadTerm(t: Tree, s: string)
    requires Computable(t) && !StartsWithDigit(s)
    ensures Term(Print(t, 1) + s) == After(Divisions(t), TermTail(Eval32(t), s))
    decreases t, if Prec(t) == 1 then 3 else Rank(t) + 1
  {
    hide Bare, Number, Expr, After;
    if Prec(t) == 1 {
      hide Print, TermTail, Term;
      PrintBin(t, s);
      var u := Print(t.right, 2) + s;
      var v := Spaces(t.before) + ([Symbol(t.op)] + u);
      SkipSome(t.before, [Symbol(t.op)] + u);
      ReadTerm(t.left, v);
      ReadNumber(t.right, s);
      ProductStep(Eval32(t.left), t.before, t.op, u);
      var ds := Divisions(t.right) + if t.op.Mul? then [] else [Division(Eval32(t.left), Eval32(t.right))];
      AfterTwice(Divisions(t.left), ds, TermTail(Eval32(t), s));
    } else {
      assert Print(t, 1) == Print(t, 2);
      hide Print;
      ReadNumber(t, s);
    }
  }

  // One round of calc_expr's loop.
  lemma SumStep(val: int, k: nat, op: Op, u: string)
    requires op.Add? || op.Sub?
    ensures ExprTail(val, Spaces(k) + ([Symbol(op)] + u)) ==
      var p := Term(u);
      var v := Wrap32(Compute(op, val, p.val));
      if p.err then Parsed(v, p.rest, true, p.divs) else After(p.divs, ExprTail(v, p.rest))
  {
    hide Term;
    var c := [Symbol(op)] + u;
    SkipSome(k, c);
    assert c[1..] == u;
  }

  lemma SumSkips(val: int, s: string)
    ensures ExprTail(val, SkipSpaces(s)) == ExprTail(val, s)
  {
    SkipTwice(s);
  }

  // A product ends where no operator of its level follows.
  lemma ProductEnds(val: int, s: string)
    requires NoProduct(s)
    ensures TermTail(val, s) == Parsed(val, SkipSpaces(s), false, [])
  {
  }

  lemma {:induction false} ReadExpr(t: Tree, s: string)
    requires Computable(t) && NoProduct(s)
    ensures Expr(Print(t, 0) + s) == After(Divisions(t), ExprTail(Eval32(t), s))
    decreases t, if Prec(t) == 2 then 2 else 4
  {
    hide Bare, ExprTail, TermTail;
    SumSkips(Eval32(t), s);
    ProductEnds(Eval32(t), s);
    if Prec(t) == 0 {
      hide Print, Term, Expr;
      PrintBin(t, s);
      var u := Print(t.right, 1) + s;
      var v := Spaces(t.before) + ([Symbol(t.op)] + u);
      SkipSome(t.before, [Symbol(t.op)] + u);
      ReadExpr(t.left, v);
      SumStep(Eval32(t.left), t.before, t.op, u);
      ReadTerm(t.right, s);
      ProductEnds(Eval32(t.right), s);
      SumSkips(Eval32(t), s);
      assert Divisions(t.right) + [] == Divisions(t.right);
      AfterTwice(Divisions(t.left), Divisions(t.right), ExprTail(Eval32(t), s));
    } else {
      assert Print(t, 0) == Print(t, 1);
      hide Print, Term;
      ReadTerm(t, s);
      assert Divisions(t) + [] == Divisions(t);
    }
  }

  // Every printing of a tree without a zero divisor, with spaces after it, is read
  // to its end, without error; the value and the divisions carried out are those
  // of the tree in 32-bit registers.
  lemma ReadsEveryTree(t: Tree, trailing: nat)
    requires Computable(t)
    ensures Expr(Print(t, 0) + Spaces(trailing)) == Result(t, "")
  {
    SkipSome(trailing, "");
    assert Spaces(trailing) + "" == Spaces(trailing);
    ReadExpr(t, Spaces(trailing));
    assert Divisions(t) + [] == Divisions(t);
  }

  // If moreover nothing overflows, the value is the true one, and no division traps.
  lemma CalculatorIsCorrect(t: Tree, trailing: nat)
    requires Defined(t)
    ensures var p := Expr(Print(t, 0) + Spaces(trailing));
      p.val == Eval(t) && p.rest == "" && !p.err && TRAP !in p.divs
  {
    DefinedIsExact(t);
    ReadsEveryTree(t, trailing);
  }

  lemma {:induction false} FailNumber(t: Tree, s: string)
    requires !Computable(t) && !StartsWithDigit(s)
    ensures Number(Print(t, 2) + s).err
    decreases t, Rank(t)
  {
    hide Expr, Wrap32, Decimal, Number, Operand, Digits;
    if t.Neg? {
      var u := "(" + Bare(t.body) + Spaces(t.gap) + ")" + s;
      assert Print(t, 2) + s == Spaces(t.lead) + ("-" + u);
      NumberSkips(t.lead, "-" + u);
      MinusSign(u);
      FailParentheses(t.body, t.gap, s);
      OperandParentheses(u, true);
    } else {
      var u := "(" + Bare(t) + Spaces(t.gap) + ")" + s;
      assert Print(t, 2) + s == Spaces(t.lead) + u;
      NumberSkips(t.lead, u);
      PlainNumber(u);
      FailParentheses(t, t.gap, s);
      OperandParentheses(u, false);
    }
  }

  lemma {:induction false} FailParentheses(t: Tree, gap: nat, s: string)
    requires !Computable(t)
    ensures var u := "(" + Bare(t) + Spaces(gap) + ")" + s; u[0] == '(' && Expr(u[1..]).err
    decreases t, 5
  {
    var v := Spaces(gap) + (")" + s);
    PrintParentheses(t, gap, s);
    assert ("(" + (Print(t, 0) + v))[1..] == Print(t, 0) + v;
    SkipSome(gap, ")" + s);
    hide Print, Bare, Expr, Computable;
    FailExpr(t, v);
  }

  // One round of calc_term's loop that meets an error or a zero divisor.
  lemma ProductFails(val: int, k: nat, op: Op, u: string)
    requires op.Mul? || op.Div? || op.Mod?
    requires Number(u).err || (!op.Mul? && Number(u).val == 0)
    ensures TermTail(val, Spaces(k) + ([Symbol(op)] + u)).err
  {
    hide Number, Wrap32, TruncDiv, TruncMod;
    var c := [Symbol(op)] + u;
    SkipSome(k, c);
    assert c[1..] == u;
  }

  lemma {:induction false} FailTerm(t: Tree, s: string)
    requires !Computable(t) && !StartsWithDigit(s)
    ensures Term(Print(t, 1) + s).err
    decreases t, if Prec(t) == 1 then 3 else Rank(t) + 1
  {
    hide Bare, Number, Expr;
    if Prec(t) == 1 {
      hide Print, TermTail, Term;
      PrintBin(t, s);
      var u := Print(t.right, 2) + s;
      var v := Spaces(t.before) + ([Symbol(t.op)] + u);
      SkipSome(t.before, [Symbol(t.op)] + u);
      if !Computable(t.left) {
        FailTerm(t.left, v);
      } else {
        ReadTerm(t.left, v);
        if Computable(t.right) { ReadNumber(t.right, s); } else { FailNumber(t.right, s); }
        ProductFails(Eval32(t.left), t.before, t.op, u);
      }
    } else {
      assert Print(t, 1) == Print(t, 2);
      hide Print;
      FailNumber(t, s);
    }
  }

  lemma {:induction false} FailExpr(t: Tree, s: string)
    requires !Computable(t) && NoProduct(s)
    ensures Expr(Print(t, 0) + s).err
    decreases t, if Prec(t) == 2 then 2 else 4
  {
    hide Bare, ExprTail;
    if Prec(t) == 0 {
      hide Print, Term, Expr;
      PrintBin(t, s);
      var u := Print(t.right, 1) + s;
      var v := Spaces(t.before) + ([Symbol(t.op)] + u);
      SkipSome(t.before, [Symbol(t.op)] + u);
      if !Computable(t.left) {
        FailExpr(t.left, v);
      } else {
        ReadExpr(t.left, v);
        SumStep(Eval32(t.left), t.before, t.op, u);
        FailTerm(t.right, s);
      }
    } else {
      assert Print(t, 0) == Print(t, 1);
      hide Print, Term;
      FailTerm(t, s);
    }
  }

  // The calculator reports an error on the text of a tree exactly when some
  // divisor in the tree, computed in registers, is zero.
  lemma ErrsExactly(t: Tree, trailing: nat)
    ensures Expr(Print(t, 0) + Spaces(trailing)).err <==> !Computable(t)
  {
    if Computable(t) {
      ReadsEveryTree(t, trailing);
    } else {
      SkipSome(trailing, "");
      assert Spaces(trailing) + "" == Spaces(trailing);
      FailExpr(t, Spaces(trailing));
    }
  }

  // -- texts that are no printed tree ------------------------------------------------

  // Exactly the spaces in front of a text are skipped.
  lemma {:induction false} SkipSpacesExactly(s: string)
    ensures exists k: nat :: s == Spaces(k) + SkipSpaces(s)
    ensures SkipSpaces(s) == "" || SkipSpaces(s)[0] != ' '
    decreases |s|
  {
    if s != "" && s[0] == ' ' {
      SkipSpacesExactly(s[1..]);
      var k: nat :| s[1..] == Spaces(k) + SkipSpaces(s[1..]);
      OneMoreSpace(s, k, SkipSpaces(s));
    } else {
      assert s == Spaces(0) + SkipSpaces(s);
    }
  }

  lemma OneMoreSpace(s: string, k: nat, r: string)
    requires StartsWith(s, ' ') && s[1..] == Spaces(k) + r
    ensures s == Spaces(k + 1) + r
  {
  }

  // Behind spaces and an optional minus there is neither a digit nor a parenthesis.
  predicate LacksOperand(s: string) {
    var s1 := SkipSpaces(s);
    var s2 := if s1 != "" && s1[0] == '-' then s1[1..] else s1;
    s2 == "" || (s2[0] != '(' && !('0' <= s2[0] <= '9'))
  }

  // Where an operand is missing the error flag is set: at the start of the text,
  // after an opening parenthesis, and after an operator behind a printed tree.
  lemma MissingOperand(s: string)
    requires LacksOperand(s)
    ensures Number(s).err && Term(s).err && Expr(s).err
  {
  }

  lemma MissingAfterParenthesis(k: nat, s: string)
    requires LacksOperand(s)
    ensures Expr(Spaces(k) + ("(" + s)).err && Expr(Spaces(k) + ("-(" + s)).err
  {
    MissingOperand(s);
    var u, v := "(" + s, "-(" + s;
    assert u[1..] == s && v[1..] == u;
    hide Expr;
    OperandParentheses(u, false);
    OperandParentheses(u, true);
    NumberSkips(k, u);
    NumberSkips(k, v);
    PlainNumber(u);
    MinusSign(u);
    assert v == "-" + u;
    NumberFails(Spaces(k) + u);
    NumberFails(Spaces(k) + v);
  }

  lemma NumberFails(s: string)
    requires Number(s).err
    ensures Term(s).err && Expr(s).err
  {
  }

  lemma MissingAfterOperator(t: Tree, k: nat, op: Op, s: string)
    requires Computable(t) && LacksOperand(s)
    ensures Expr(Print(t, 0) + (Spaces(k) + ([Symbol(op)] + s))).err
  {
    var v := Spaces(k) + ([Symbol(op)] + s);
    SkipSome(k, [Symbol(op)] + s);
    MissingOperand(s);
    hide Print, Number, Term, Expr, LacksOperand, Computable;
    if Level(op) == 0 {
      ReadExpr(t, v);
      SumStep(Eval32(t), k, op, s);
    } else if Prec(t) == 0 {
      SumThenProduct(t, k, op, s);
    } else {
      PrintAsTerm(t);
      ReadTerm(t, v);
      ProductFails(Eval32(t), k, op, s);
      TermFails(Print(t, 0) + v);
    }
  }

  lemma PrintAsTerm(t: Tree)
    requires Prec(t) > 0
    ensures Print(t, 0) == Print(t, 1)
  {
  }

  lemma TermFails(s: string)
    requires Term(s).err
    ensures Expr(s).err
  {
  }

  lemma SumThenProduct(t: Tree, k: nat, op: Op, s: string)
    requires Computable(t) && Prec(t) == 0 && Level(op) == 1 && Number(s).err
    ensures Expr(Print(t, 0) + (Spaces(k) + ([Symbol(op)] + s))).err
  {
    hide Print, Bare, Term, Expr, ExprTail, Number;
    var v := Spaces(k) + ([Symbol(op)] + s);
    SkipSome(k, [Symbol(op)] + s);
    PrintBin(t, v);
    var u := Print(t.right, 1) + v;
    SkipSome(t.before, [Symbol(t.op)] + u);
    ReadExpr(t.left, Spaces(t.before) + ([Symbol(t.op)] + u));
    SumStep(Eval32(t.left), t.before, t.op, u);
    ReadTerm(t.right, v);
    ProductFails(Eval32(t.right), k, op, s);
  }

  // A closing parenthesis may be left out at the end of the text.
  lemma UnclosedIsAccepted(t: Tree, k: nat)
    requires Computable(t)
    ensures Expr("(" + (Print(t, 0) + Spaces(k))) == Result(t, "")
  {
    var u := "(" + (Print(t, 0) + Spaces(k));
    assert u[1..] == Print(t, 0) + Spaces(k);
    ReadsEveryTree(t, k);
    hide Print, Eval32, Divisions, Expr;
    OperandParentheses(u, false);
    PlainNumber(u);
    WholeNumber(u);
  }

  // A number that the text ends with is the value of the text.
  lemma WholeNumber(s: string)
    requires !Number(s).err && Number(s).rest == ""
    ensures Expr(s) == Number(s)
  {
    hide Number;
    var p := Number(s);
    assert p.divs + [] == p.divs;
    assert TermTail(p.val, "") == Parsed(p.val, "", false, []) && ExprTail(p.val, "") == Parsed(p.val, "", false, []);
    assert Term(s) == p;
  }

  // The text ends for the calculator where no operator follows, whatever comes.
  lemma StopsAtForeign(t: Tree, s: string)
    requires Computable(t) && !StartsWithDigit(s)
    requires SkipSpaces(s) != "" ==> SkipSpaces(s)[0] !in "+-*/%"
    ensures Expr(Print(t, 0) + s) == Parsed(Eval32(t), SkipSpaces(s), false, Divisions(t))
  {
    ReadExpr(t, s);
    hide Print, Expr, Eval32, Divisions;
    assert Divisions(t) + [] == Divisions(t);
  }

  // What each operator stands for.
  lemma OperatorsExactly(l: Tree, r: Tree)
    requires Computable(l) && Computable(r)
    ensures Expr(Print(l, 0) + "+" + Print(r, 1)).val == Wrap32(Eval32(l) + Eval32(r))
    ensures Expr(Print(l, 0) + "-" + Print(r, 1)).val == Wrap32(Eval32(l) - Eval32(r))
    ensures Expr(Print(l, 1) + "*" + Print(r, 2)).val == Wrap32(Eval32(l) * Eval32(r))
    ensures Eval32(r) != 0 ==>
      && Expr(Print(l, 1) + "/" + Print(r, 2)).val == Wrap32(TruncDiv(Eval32(l), Eval32(r)))
      && Expr(Print(l, 1) + "%" + Print(r, 2)).val == Wrap32(TruncMod(Eval32(l), Eval32(r)))
  {
    hide Print, Expr, Eval32, Computable, Wrap32, TruncDiv, TruncMod;
    OperatorText(l, Add, r);
    OperatorText(l, Sub, r);
    OperatorText(l, Mul, r);
    if Eval32(r) != 0 {
      OperatorText(l, Div, r);
      OperatorText(l, Mod, r);
    }
  }

  lemma OperatorText(l: Tree, op: Op, r: Tree)
    requires Computable(l) && Computable(r) && (op.Div? || op.Mod? ==> Eval32(r) != 0)
    ensures Expr(Print(l, Level(op)) + [Symbol(op)] + Print(r, Level(op) + 1)).val
      == Wrap32(Compute(op, Eval32(l), Eval32(r)))
  {
    hide Expr, Wrap32, Compute;
    var t := Bin(0, l, 0, op, r, 0);
    OperationTexts(t);
    ReadsEveryTree(t, 0);
    assert Print(t, 0) + Spaces(0) == Print(t, 0);
  }

  // Some division in the tree is of the least number by -1.
  predicate HasTrap(t: Tree) {
    match t
    case Lit(_, n) => false
    case Neg(_, body, _) => HasTrap(body)
    case Bin(_, l, _, op, r, _) =>
      HasTrap(l) || HasTrap(r) || ((op.Div? || op.Mod?) && Eval32(l) == -0x8000_0000 && Eval32(r) == -1)
  }

  lemma {:induction false} TrapInDivisions(t: Tree)
    ensures TRAP in Divisions(t) <==> HasTrap(t)
  {
    match t {
      case Lit(_, n) =>
      case Neg(_, body, _) => TrapInDivisions(body);
      case Bin(_, l, _, op, r, _) =>
        TrapInDivisions(l);
        TrapInDivisions(r);
    }
  }

  // The calculator traps on the text of a tree exactly when the tree divides the
  // least number by -1 somewhere.
  lemma TrapsExactly(t: Tree, trailing: nat)
    requires Computable(t)
    ensures TRAP in Expr(Print(t, 0) + Spaces(trailing)).divs <==> HasTrap(t)
  {
    ReadsEveryTree(t, trailing);
    TrapInDivisions(t);
  }

  // (-2147483647 - 1) / -1, every number of which is in range.
  function LeastOverMinusOne(): Tree {
    Bin(0, Bin(0, Neg(0, Lit(0, 0x7FFF_FFFF), 0), 0, Sub, Lit(0, 1), 0), 0, Div, Neg(0, Lit(0, 1), 0), 0)
  }

  lemma InRangeButTraps()
    ensures Print(LeastOverMinusOne(), 0) == "(-2147483647-1)/-1"
    ensures Computable(LeastOverMinusOne()) && TRAP in Expr("(-2147483647-1)/-1").divs
  {
    PrintLeast();
    var t := LeastOverMinusOne();
    hide Print, Expr;
    TrapsExactly(t, 0);
    assert Print(t, 0) + Spaces(0) == Print(t, 0);
  }

  lemma PrintLeast()
    ensures Print(LeastOverMinusOne(), 0) == "(-2147483647-1)/-1"
  {
    hide Print, Bare, Decimal;
    Greatest();
    One();
    var t := LeastOverMinusOne();
    SmallTexts(0x7FFF_FFFF, 0);
    SmallTexts(1, 1);
    SmallTexts(1, 2);
    OperationTexts(t.left);
    OperationTexts(t);
  }

  lemma SmallTexts(n: nat, level: nat)
    requires level <= 2
    ensures Print(Lit(0, n), level) == Decimal(n) && Print(Neg(0, Lit(0, n), 0), level) == "-" + Decimal(n)
  {
    hide Decimal;
    assert Spaces(0) == "";
    assert Bare(Lit(0, n)) == Decimal(n) && Bare(Neg(0, Lit(0, n), 0)) == "-" + Decimal(n);
  }

  lemma OperationTexts(t: Tree)
    requires t.Bin? && t.lead == t.before == t.gap == 0
    ensures Print(t, Level(t.op)) == Print(t.left, Level(t.op)) + [Symbol(t.op)] + Print(t.right, Level(t.op) + 1)
    ensures Print(t, Level(t.op) + 1) == "(" + Print(t, Level(t.op)) + ")"
    ensures Print(t, 0) == Print(t, Level(t.op))
  {
    Unspaced(Print(t.left, Level(t.op)), [Symbol(t.op)], Print(t.right, Level(t.op) + 1));
    Unspaced("(", Bare(t), ")");
  }

  lemma Unspaced(a: string, b: string, c: string)
    ensures a + (Spaces(0) + (b + c)) == a + b + c
    ensures Spaces(0) + a + b + Spaces(0) + c == a + b + c
  {
  }

  lemma One()
    ensures Decimal(1) == "1"
  {
  }

  lemma NextDigit(n: nat, d: nat)
    requires d < 10 && n > 0
    ensures N.Digits(10 * n + d, 10) == N.Digits(n, 10) + [N.Digit(d)]
  {
    var m := 10 * n + d;
    assert m / 10 == n && m % 10 == d;
  }

  lemma Greatest()
    ensures Decimal(2147483647) == "2147483647"
  {
    assert N.Digits(2, 10) == "2";
    hide N.Digits;
    NextDigit(2, 1);
    NextDigit(21, 4);
    NextDigit(214, 7);
    NextDigit(2147, 4);
    NextDigit(21474, 8);
    NextDigit(214748, 3);
    NextDigit(2147483, 6);
    NextDigit(21474836, 4);
    NextDigit(214748364, 7);
  }
}
