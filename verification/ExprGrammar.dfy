/**
 The grammar of expressions as a language manual would write it, operator by operator, and the
 proof that the parser of lang/parser.c parses exactly this grammar:

   or-expr  ::=  and-expr  |  or-expr   ( || or )          and-expr
   and-expr ::=  eq-expr   |  and-expr  ( && and )         eq-expr
   eq-expr  ::=  cmp-expr  |  eq-expr   ( == != )          cmp-expr
   cmp-expr ::=  add-expr  |  cmp-expr  ( < > <= >= )      add-expr
   add-expr ::=  mul-expr  |  add-expr  ( + - )            mul-expr
   mul-expr ::=  unary     |  mul-expr  ( * / % path-"/" ) unary

 Nothing here refers to the parser's table of precedences.
 */
module ExprGrammar {
  import opened ExprParser
  import opened Wrappers

  // ----- The operators

  predicate OrTok(t: Tok) { t == Op(Or) || t == KwOr }
  predicate AndTok(t: Tok) { t == Op(And) || t == KwAnd }
  predicate EqTok(t: Tok) { t == Op(EqEq) || t == Op(Neq) }
  predicate CmpTok(t: Tok) { t == Op(Lt) || t == Op(Gt) || t == Op(Le) || t == Op(Ge) }
  predicate AddTok(t: Tok) { t == Op(Plus) || t == Op(Minus) }
  predicate MulTok(t: Tok) { t == Op(Star) || t == Op(Slash) || t == Op(Percent) || t == RegPath("/") }

  predicate OpTok(t: Tok) { OrTok(t) || AndTok(t) || EqTok(t) || CmpTok(t) || AddTok(t) || MulTok(t) }

  // The operator that a token writes.
  predicate Means(t: Tok, op: BinOp) {
    t == Op(op) || (t == KwOr && op == Or) || (t == KwAnd && op == And) || (t == RegPath("/") && op == Slash)
  }

  // ----- The grammar

  predicate OrExpr(c: Cst)
    decreases c, 7
  {
    AndExpr(c) || (c.CBin? && OrTok(c.tok) && OrExpr(c.left) && AndExpr(c.right))
  }

  predicate AndExpr(c: Cst)
    decreases c, 6
  {
    EqExpr(c) || (c.CBin? && AndTok(c.tok) && AndExpr(c.left) && EqExpr(c.right))
  }

  predicate EqExpr(c: Cst)
    decreases c, 5
  {
    CmpExpr(c) || (c.CBin? && EqTok(c.tok) && EqExpr(c.left) && CmpExpr(c.right))
  }

  predicate CmpExpr(c: Cst)
    decreases c, 4
  {
    AddExpr(c) || (c.CBin? && CmpTok(c.tok) && CmpExpr(c.left) && AddExpr(c.right))
  }

  predicate AddExpr(c: Cst)
    decreases c, 3
  {
    MulExpr(c) || (c.CBin? && AddTok(c.tok) && AddExpr(c.left) && MulExpr(c.right))
  }

  predicate MulExpr(c: Cst)
    decreases c, 2
  {
    Unary(c) || (c.CBin? && MulTok(c.tok) && MulExpr(c.left) && Unary(c.right))
  }

  predicate Unary(c: Cst)
    decreases c, 1
  {
    match c
    case CAtom(t) => t.Literal? || t.Ident? || t.RegPath?
    case CReg(_) => true
    case CDeref(_) => true
    case CIndex(_, e) => OrExpr(e)
    case CCall(_, args) => Arguments(args)
    case CParen(e) => OrExpr(e)
    case CNot(_, e) => Unary(e)
    case CBin(_, _, _) => false
  }

  // A comma may be left out where the next argument cannot be taken for more of this one.
  predicate Arguments(args: CArgs)
    decreases args, 0
  {
    match args
    case NoArgs => true
    case CArg(e, comma, rest) => OrExpr(e) && Arguments(rest) && (comma || Ends(e, (YieldArgs(rest) + [RParen])[0]))
  }

  predicate Ends(e: Cst, next: Tok) { !OpTok(next) && (EndsName(e) ==> next != LParen && next != LBracket) }

  // The expression a tree stands for.  Of the arguments of a call the first sixteen are kept.
  ghost predicate Denotes(c: Cst, e: Expr)
    decreases c, 0
  {
    match c
    case CAtom(t) => e == Atom(t)
    case CReg(p) => e == Atom(RegPath(p))
    case CDeref(p) => e == Deref(p)
    case CIndex(name, i) => e.Index? && e.name == name && Denotes(i, e.index)
    case CCall(name, args) => e.Call? && e.name == name && DenotesKept(args, e.args)
    case CParen(i) => Denotes(i, e)
    case CNot(_, a) => e.Not? && Denotes(a, e.arg)
    case CBin(t, l, r) => e.Bin? && Means(t, e.op) && Denotes(l, e.left) && Denotes(r, e.right)
  }

  ghost predicate DenotesKept(args: CArgs, es: seq<Expr>)
    decreases args, 1
  {
    |es| <= 16 && exists more: seq<Expr> :: DenotesAll(args, es + more) && (|es| < 16 ==> more == [])
  }

  ghost predicate DenotesAll(args: CArgs, es: seq<Expr>)
    decreases args, 0
  {
    match args
    case NoArgs => es == []
    case CArg(e, _, rest) => es != [] && Denotes(e, es[0]) && DenotesAll(rest, es[1..])
  }

  // ----- The well-shaped trees are those of the grammar

  ghost predicate Tighter(c: Cst, p: nat) { Shaped(c) && (c.CBin? ==> CstPrec(c) >= p) }

  // The six kinds of expressions, in terms of precedences.
  ghost predicate Stratified(c: Cst) {
    && (OrExpr(c) <==> Tighter(c, 1)) && (AndExpr(c) <==> Tighter(c, 2)) && (EqExpr(c) <==> Tighter(c, 3))
    && (CmpExpr(c) <==> Tighter(c, 4)) && (AddExpr(c) <==> Tighter(c, 5)) && (MulExpr(c) <==> Tighter(c, 6))
    && (Unary(c) <==> Shaped(c) && !c.CBin?)
  }

  // Each operator in its class.
  lemma OperatorClasses(t: Tok)
    ensures OpTok(t) <==> OperatorOf(t).Some?
    ensures OperatorOf(t).Some? ==>
      var p := Prec(OperatorOf(t).value);
      && (OrTok(t) <==> p == 1) && (AndTok(t) <==> p == 2) && (EqTok(t) <==> p == 3)
      && (CmpTok(t) <==> p == 4) && (AddTok(t) <==> p == 5) && (MulTok(t) <==> p == 6)
    ensures forall op :: Means(t, op) <==> OperatorOf(t) == Some(op)
  {
    hide Means, Prec, OrTok, AndTok, EqTok, CmpTok, AddTok, MulTok;
    forall op ensures Means(t, op) <==> OperatorOf(t) == Some(op) { OperatorMeant(t, op); }
    if t.Op? { ClassOf(t.op); } else { OtherClasses(t); }
  }

  lemma ClassOf(op: BinOp)
    ensures
      var t, p := Op(op), Prec(op);
      && 1 <= p <= 6 && (OrTok(t) <==> p == 1) && (AndTok(t) <==> p == 2) && (EqTok(t) <==> p == 3)
      && (CmpTok(t) <==> p == 4) && (AddTok(t) <==> p == 5) && (MulTok(t) <==> p == 6)
  {
    hide Prec;
    Precedences();
    match op
    case Or => case And => case EqEq => case Neq => case Lt => case Gt => case Le => case Ge =>
    case Plus => case Minus => case Star => case Slash => case Percent =>
  }

  // The two words and the path "/"; no other token is an operator.
  lemma OtherClasses(t: Tok)
    requires !t.Op?
    ensures !EqTok(t) && !CmpTok(t) && !AddTok(t)
    ensures (OrTok(t) <==> t == KwOr) && (AndTok(t) <==> t == KwAnd) && (MulTok(t) <==> t == RegPath("/"))
    ensures Prec(Or) == 1 && Prec(And) == 2 && Prec(Slash) == 6
  {
  }

  lemma Precedences()
    ensures Prec(Or) == 1 && Prec(And) == 2 && Prec(EqEq) == 3 && Prec(Neq) == 3
    ensures Prec(Lt) == 4 && Prec(Gt) == 4 && Prec(Le) == 4 && Prec(Ge) == 4
    ensures Prec(Plus) == 5 && Prec(Minus) == 5 && Prec(Star) == 6 && Prec(Slash) == 6 && Prec(Percent) == 6
  {
  }

  lemma OperatorMeant(t: Tok, op: BinOp)
    ensures Means(t, op) <==> OperatorOf(t) == Some(op)
  {
  }

  // The rules, one by one.
  lemma Rules(c: Cst)
    ensures OrExpr(c) <==> AndExpr(c) || (c.CBin? && OrTok(c.tok) && OrExpr(c.left) && AndExpr(c.right))
    ensures AndExpr(c) <==> EqExpr(c) || (c.CBin? && AndTok(c.tok) && AndExpr(c.left) && EqExpr(c.right))
    ensures EqExpr(c) <==> CmpExpr(c) || (c.CBin? && EqTok(c.tok) && EqExpr(c.left) && CmpExpr(c.right))
    ensures CmpExpr(c) <==> AddExpr(c) || (c.CBin? && CmpTok(c.tok) && CmpExpr(c.left) && AddExpr(c.right))
    ensures AddExpr(c) <==> MulExpr(c) || (c.CBin? && AddTok(c.tok) && AddExpr(c.left) && MulExpr(c.right))
    ensures MulExpr(c) <==> Unary(c) || (c.CBin? && MulTok(c.tok) && MulExpr(c.left) && Unary(c.right))
    ensures c.CBin? ==> !Unary(c)
  {
  }

  lemma {:induction false} GrammarIsShaped(c: Cst)
    ensures Stratified(c)
    decreases c
  {
    hide OrTok, AndTok, EqTok, CmpTok, AddTok, MulTok, OrExpr, AndExpr, EqExpr, CmpExpr, AddExpr, MulExpr;
    Rules(c);
    match c
    case CIndex(_, e) => GrammarIsShaped(e);
    case CCall(_, args) => ArgumentsAreShaped(args);
    case CParen(e) => GrammarIsShaped(e);
    case CNot(_, e) => GrammarIsShaped(e);
    case CBin(t, l, r) =>
      GrammarIsShaped(l);
      GrammarIsShaped(r);
      BinStratified(c);
    case _ =>
  }

  lemma BinStratified(c: Cst)
    requires c.CBin? && Stratified(c.left) && Stratified(c.right)
    ensures Stratified(c)
  {
    hide OrExpr, AndExpr, EqExpr, CmpExpr, AddExpr, MulExpr, Unary, OrTok, AndTok, EqTok, CmpTok, AddTok, MulTok;
    OperatorClasses(c.tok);
    Rules(c);
    ShapedBin(c);
  }

  lemma ShapedBin(c: Cst)
    requires c.CBin?
    ensures Shaped(c) <==>
      && OperatorOf(c.tok).Some? && Shaped(c.left) && Shaped(c.right)
      && Tighter(c.left, Prec(OperatorOf(c.tok).value)) && Tighter(c.right, Prec(OperatorOf(c.tok).value) + 1)
  {
  }

  lemma {:induction false} ArgumentsAreShaped(args: CArgs)
    ensures Arguments(args) <==> ShapedArgs(args)
    decreases args
  {
    if args.CArg? {
      GrammarIsShaped(args.e);
      ArgumentsAreShaped(args.rest);
      OperatorClasses((YieldArgs(args.rest) + [RParen])[0]);
    }
  }

  lemma {:induction false} DenotesIsStrip(c: Cst, e: Expr)
    requires Shaped(c)
    ensures Denotes(c, e) <==> Strip(c) == e
    decreases c
  {
    match c
    case CIndex(_, i) => if e.Index? { DenotesIsStrip(i, e.index); }
    case CCall(_, args) => if e.Call? { KeptIsCap(args, e.args); }
    case CParen(i) => DenotesIsStrip(i, e);
    case CNot(_, a) => if e.Not? { DenotesIsStrip(a, e.arg); }
    case CBin(t, l, r) =>
      OperatorClasses(t);
      if e.Bin? {
        DenotesIsStrip(l, e.left);
        DenotesIsStrip(r, e.right);
      }
    case _ =>
  }

  lemma {:induction false} AllIsStrip(args: CArgs, es: seq<Expr>)
    requires ShapedArgs(args)
    ensures DenotesAll(args, es) <==> StripArgs(args) == es
    decreases args, 0
  {
    if args.CArg? && es != [] {
      DenotesIsStrip(args.e, es[0]);
      AllIsStrip(args.rest, es[1..]);
      assert es == [es[0]] + es[1..];
    }
  }

  lemma {:induction false} KeptIsCap(args: CArgs, es: seq<Expr>)
    requires ShapedArgs(args)
    ensures DenotesKept(args, es) <==> Cap(StripArgs(args)) == es
    decreases args, 1
  {
    var all := StripArgs(args);
    forall more: seq<Expr> ensures DenotesAll(args, es + more) <==> all == es + more { AllIsStrip(args, es + more); }
    if Cap(all) == es {
      var more := all[|es|..];
      assert all == es + more;
    }
  }

  /**
   * The parser takes a token list, in which every `reg` has its path, to its end without error
   * exactly when the list is an or-expr, and then returns the expression it stands for.
   */
  lemma ParsesTheGrammar(ts: seq<Tok>, e: Expr)
    ensures (RegComplete(ts) && Binop(ts, 1, false) == Parse(Some(e), [], false)) <==>
            (exists c :: OrExpr(c) && Yield(c) == ts && Denotes(c, e))
  {
    hide Primary, Binop, Climb, Shaped, Strip, Yield, RegComplete, OrExpr, Denotes;
    ParsesExactlyTheGrammar(ts, e);
    forall c ensures OrExpr(c) && Denotes(c, e) <==> Shaped(c) && Strip(c) == e { OneTree(c, e); }
  }

  lemma OneTree(c: Cst, e: Expr)
    ensures OrExpr(c) && Denotes(c, e) <==> Shaped(c) && Strip(c) == e
  {
    hide Shaped, Strip, Denotes;
    GrammarIsShaped(c);
    if Shaped(c) {
      ShapedPrec(c);
      DenotesIsStrip(c, e);
    }
  }

  lemma ShapedPrec(c: Cst)
    requires Shaped(c)
    ensures Tighter(c, 1)
  {
  }

  // ----- How operators group

  predicate IsOperand(t: Tok) { t.Literal? || t.Ident? || t.RegPath? }

  // p binds less tightly than m.
  predicate Looser(p: Tok, m: Tok) {
    || (OrTok(p) && (AndTok(m) || EqTok(m) || CmpTok(m) || AddTok(m) || MulTok(m)))
    || (AndTok(p) && (EqTok(m) || CmpTok(m) || AddTok(m) || MulTok(m)))
    || (EqTok(p) && (CmpTok(m) || AddTok(m) || MulTok(m)))
    || (CmpTok(p) && (AddTok(m) || MulTok(m)))
    || (AddTok(p) && MulTok(m))
  }

  /**
   * Three operands and two operators: the right operator takes its operands first exactly when the
   * left one binds less tightly; operators that bind alike group from the left.
   */
  lemma Grouping(x: Tok, p: Tok, y: Tok, m: Tok, z: Tok, po: BinOp, mo: BinOp)
    requires IsOperand(x) && IsOperand(y) && IsOperand(z) && Means(p, po) && Means(m, mo)
    ensures
      Binop([x, p, y, m, z], 1, false) ==
        Parse(Some(if Looser(p, m) then Bin(po, Atom(x), Bin(mo, Atom(y), Atom(z))) else Bin(mo, Bin(po, Atom(x), Atom(y)), Atom(z))), [], false)
  {
    hide Primary, Binop, Climb, Means, OrTok, AndTok, EqTok, CmpTok, AddTok, MulTok, OperatorOf, Prec;
    OperatorClasses(p);
    OperatorClasses(m);
    Pair(x, p, y, po);
    Pair(y, m, z, mo);
    hide Shaped, Yield, Strip;
    if Looser(p, m) {
      var inner := CBin(m, CAtom(y), CAtom(z));
      PairOf(p, po, CAtom(x), inner);
      assert [x] + [p] + [y, m, z] == [x, p, y, m, z];
      FormParses(CBin(p, CAtom(x), inner), [x, p, y, m, z]);
    } else {
      var inner := CBin(p, CAtom(x), CAtom(y));
      PairOf(m, mo, inner, CAtom(z));
      assert [x, p, y] + [m] + [z] == [x, p, y, m, z];
      FormParses(CBin(m, inner, CAtom(z)), [x, p, y, m, z]);
    }
  }

  // Two operands and their operator.
  lemma PairOf(p: Tok, po: BinOp, l: Cst, r: Cst)
    requires Shaped(l) && Shaped(r) && OperatorOf(p) == Some(po)
    requires (l.CBin? ==> CstPrec(l) >= Prec(po)) && (r.CBin? ==> CstPrec(r) > Prec(po))
    ensures
      var c := CBin(p, l, r);
      Shaped(c) && Yield(c) == Yield(l) + [p] + Yield(r) && Strip(c) == Bin(po, Strip(l), Strip(r)) && CstPrec(c) == Prec(po)
  {
  }

  lemma Pair(x: Tok, p: Tok, y: Tok, po: BinOp)
    requires IsOperand(x) && IsOperand(y) && OperatorOf(p) == Some(po)
    ensures
      var a, b := CAtom(x), CAtom(y);
      && Shaped(a) && Yield(a) == [x] && Strip(a) == Atom(x) && Shaped(b) && Yield(b) == [y] && Strip(b) == Atom(y)
      && var c := CBin(p, a, b);
         Shaped(c) && Yield(c) == [x, p, y] && Strip(c) == Bin(po, Atom(x), Atom(y)) && CstPrec(c) == Prec(po)
  {
    PairOf(p, po, CAtom(x), CAtom(y));
  }

  lemma LooserFacts()
    ensures Means(Op(Plus), Plus) && Means(Op(Star), Star) && Means(Op(Minus), Minus) && Means(Op(Lt), Lt)
    ensures Means(KwOr, Or) && Means(KwAnd, And) && Means(RegPath("/"), Slash)
    ensures Looser(Op(Plus), Op(Star)) && !Looser(Op(Minus), Op(Minus)) && Looser(KwOr, RegPath("/")) && !Looser(Op(Lt), KwAnd)
  {
  }

  // 1 + 2 * 3, and a < b and c / d with the words and the path "/".
  lemma GroupingExamples()
    ensures
      var one, two, three := Literal("1"), Literal("2"), Literal("3");
      && Binop([one, Op(Plus), two, Op(Star), three], 1, false)
           == Parse(Some(Bin(Plus, Atom(one), Bin(Star, Atom(two), Atom(three)))), [], false)
      && Binop([one, Op(Minus), two, Op(Minus), three], 1, false)
           == Parse(Some(Bin(Minus, Bin(Minus, Atom(one), Atom(two)), Atom(three))), [], false)
      && Binop([one, KwOr, two, RegPath("/"), three], 1, false)
           == Parse(Some(Bin(Or, Atom(one), Bin(Slash, Atom(two), Atom(three)))), [], false)
      && Binop([one, Op(Lt), two, KwAnd, three], 1, false)
           == Parse(Some(Bin(And, Bin(Lt, Atom(one), Atom(two)), Atom(three))), [], false)
  {
    hide Binop, Means, Looser;
    LooserFacts();
    var one, two, three := Literal("1"), Literal("2"), Literal("3");
    Grouping(one, Op(Plus), two, Op(Star), three, Plus, Star);
    Grouping(one, Op(Minus), two, Op(Minus), three, Minus, Minus);
    Grouping(one, KwOr, two, RegPath("/"), three, Or, Slash);
    Grouping(one, Op(Lt), two, KwAnd, three, Lt, And);
  }

  // The other forms: brackets, negation, which takes one operand, an index, a call, and the two words for paths.
  lemma Forms(x: Tok, p: Tok, y: Tok, po: BinOp, kw: bool, f: string)
    requires IsOperand(x) && IsOperand(y) && Means(p, po)
    ensures Binop([LParen, x, p, y, RParen], 1, false) == Parse(Some(Bin(po, Atom(x), Atom(y))), [], false)
    ensures Binop([NotTok(kw), x, p, y], 1, false) == Parse(Some(Bin(po, Not(Atom(x)), Atom(y))), [], false)
    ensures Binop([Ident(f), LBracket, x, RBracket], 1, false) == Parse(Some(Index(f, Atom(x))), [], false)
    ensures Binop([Ident(f), LParen, x, Comma, y, RParen], 1, false) == Parse(Some(Call(f, [Atom(x), Atom(y)])), [], false)
    ensures Binop([KwReg, RegPath(f)], 1, false) == Parse(Some(Atom(RegPath(f))), [], false)
    ensures Binop([KwDeref, RegPath(f)], 1, false) == Parse(Some(Deref(f)), [], false)
  {
    hide Primary, Binop, Climb, Means, OperatorOf, Prec;
    OperatorClasses(p);
    var a, b := CAtom(x), CAtom(y);
    var bin, no := CBin(p, a, b), CNot(kw, a);
    assert Shaped(bin) && Yield(bin) == [x, p, y] && Strip(bin) == Bin(po, Atom(x), Atom(y));
    assert [LParen] + [x, p, y] + [RParen] == [LParen, x, p, y, RParen];
    FormParses(CParen(bin), [LParen, x, p, y, RParen]);
    assert Shaped(no) && Yield(no) == [NotTok(kw), x] && Strip(no) == Not(Atom(x));
    FormParses(CBin(p, no, b), [NotTok(kw), x, p, y]);
    FormParses(CIndex(f, a), [Ident(f), LBracket, x, RBracket]);
    CallParses(f, x, y);
    FormParses(CReg(f), [KwReg, RegPath(f)]);
    FormParses(CDeref(f), [KwDeref, RegPath(f)]);
  }

  lemma FormParses(c: Cst, ts: seq<Tok>)
    requires Shaped(c) && Yield(c) == ts
    ensures Binop(ts, 1, false) == Parse(Some(Strip(c)), [], false)
  {
    hide Primary, Binop, Climb, Yield, Shaped, Strip;
    ShapedParses(c);
  }

  lemma CallParses(f: string, x: Tok, y: Tok)
    requires IsOperand(x) && IsOperand(y)
    ensures Binop([Ident(f), LParen, x, Comma, y, RParen], 1, false) == Parse(Some(Call(f, [Atom(x), Atom(y)])), [], false)
  {
    hide Primary, Binop, Climb;
    var last := CArg(CAtom(y), false, NoArgs);
    var args := CArg(CAtom(x), true, last);
    assert YieldArgs(NoArgs) + [RParen] == [RParen];
    assert ShapedArgs(last) && ShapedArgs(args) && Shaped(CCall(f, args));
    assert YieldArgs(last) == [y] && YieldArgs(args) == [x, Comma, y];
    assert StripArgs(last) == [Atom(y)] && StripArgs(args) == [Atom(x), Atom(y)];
    assert Yield(CCall(f, args)) == [Ident(f), LParen, x, Comma, y, RParen];
    FormParses(CCall(f, args), [Ident(f), LParen, x, Comma, y, RParen]);
  }
}
