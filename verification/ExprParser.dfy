/**
 Expression parsing in lang/parser.c: precedence climbing over a token stream, with calls.

 `Binop`, `Climb`, `Primary` and `Args` say what the parser does with any tokens, errors included;
 class `Parser` is the program.  A syntax tree that keeps its brackets (`Cst`) and reads off its
 tokens in order (`Yield`) is the grammar.  Climbing is proved to accept exactly the token lists
 that are read off a well-shaped tree, to return that tree without its brackets, and to undo the
 printing of any expression with the fewest possible brackets.

 One exception is the parser's own: the word `reg` without a path behind it yields no expression
 and no error either.

 The words ls, msgpending and receivemessage, whose call forms do not stop at an error, are not
 among the tokens.
 */
module ExprParser {
  import opened Wrappers

  const MAX_PARAMS := 16

  // The operators a tree can hold, one for each name that binop_name gives.
  datatype BinOp = Or | And | EqEq | Neq | Lt | Gt | Le | Ge | Plus | Minus | Star | Slash | Percent

  datatype Tok =
    | Literal(text: string)      // integers, floats, strings, true, false, nil, pwd
    | Ident(text: string)
    | RegPath(text: string)
    | Op(op: BinOp)
    | KwOr | KwAnd
    | NotTok(keyword: bool)
    | KwReg | KwDeref
    | LParen | RParen | LBracket | RBracket | Comma
    | Other(text: string)        // tokens that start no expression

  // The tree without brackets.  Missing stands for a null child.
  datatype Expr =
    | Atom(tok: Tok)
    | Deref(path: string)
    | Index(name: string, index: Expr)
    | Call(name: string, args: seq<Expr>)
    | Not(arg: Expr)
    | Bin(op: BinOp, left: Expr, right: Expr)
    | Missing

  // binop_prec, for the operator tokens
  function Prec(op: BinOp): (p: nat)
    ensures 1 <= p <= 6
  {
    match op
    case Or => 1
    case And => 2
    case EqEq | Neq => 3
    case Lt | Gt | Le | Ge => 4
    case Plus | Minus => 5
    case Star | Slash | Percent => 6
  }

  // The operator a token stands for.  The words `or` and `and` are second spellings; the registry path "/" is a division sign here.
  function OperatorOf(t: Tok): Option<BinOp> {
    match t
    case Op(op) => Some(op)
    case KwOr => Some(Or)
    case KwAnd => Some(And)
    case RegPath(text) => if text == "/" then Some(Slash) else None
    case _ => None
  }

  function TokPrec(ts: seq<Tok>): nat {
    if ts == [] || OperatorOf(ts[0]).None? then 0 else Prec(OperatorOf(ts[0]).value)
  }

  predicate IsAtom(t: Tok) { t.Literal? || t.Ident? || t.RegPath? }

  // ----- What the parser does

  datatype Parse = Parse(expr: Option<Expr>, rest: seq<Tok>, err: bool)

  datatype ParsedArgs = ParsedArgs(args: seq<Expr>, rest: seq<Tok>, err: bool)

  predicate StartsWith(ts: seq<Tok>, t: Tok) { ts != [] && ts[0] == t }

  // `err` says whether an error has been recorded already.
  function Primary(ts: seq<Tok>, err: bool): (r: Parse)
    ensures |r.rest| <= |ts| && (r.expr.Some? ==> |r.rest| < |ts|)
    decreases |ts|, 0
  {
    if ts == [] then Parse(None, ts, true)
    else
      match ts[0]
      case Literal(_) => Parse(Some(Atom(ts[0])), ts[1..], err)
      case RegPath(_) => Parse(Some(Atom(ts[0])), ts[1..], err)
      case KwReg => if PathFollows(ts) then Parse(Some(Atom(ts[1])), ts[2..], err) else Parse(None, ts[1..], err)
      case KwDeref => if PathFollows(ts) then Parse(Some(Deref(ts[1].text)), ts[2..], err) else Parse(None, ts[1..], true)
      case Ident(name) => AfterName(name, ts[1..], err)
      case LParen =>
        var r := Binop(ts[1..], 1, err);
        if StartsWith(r.rest, RParen) then Parse(r.expr, r.rest[1..], r.err) else Parse(r.expr, r.rest, true)
      case NotTok(_) =>
        var r := Primary(ts[1..], err);
        Parse(Some(Not(if r.expr.Some? then r.expr.value else Missing)), r.rest, r.err)
      case _ => Parse(None, ts, true)
  }

  predicate PathFollows(ts: seq<Tok>) { |ts| >= 2 && ts[1].RegPath? }

  // An index, a call or a plain name.
  function AfterName(name: string, ts: seq<Tok>, err: bool): (r: Parse)
    ensures |r.rest| <= |ts|
    decreases |ts|, 4
  {
    if StartsWith(ts, LBracket) then
      var r := Binop(ts[1..], 1, err);
      if r.expr.None? then r
      else if StartsWith(r.rest, RBracket) then Parse(Some(Index(name, r.expr.value)), r.rest[1..], r.err)
      else Parse(None, r.rest, true)
    else if StartsWith(ts, LParen) then
      var a := Args(ts[1..], err, []);
      if StartsWith(a.rest, RParen) then Parse(Some(Call(name, a.args)), a.rest[1..], a.err) else Parse(None, a.rest, true)
    else Parse(Some(Atom(Ident(name))), ts, err)
  }

  function Cap(args: seq<Expr>): seq<Expr> { First(args, MAX_PARAMS) }

  function First(args: seq<Expr>, n: nat): seq<Expr> { if |args| <= n then args else args[..n] }

  // The arguments of a call: a comma may follow each of them, and the surplus ones are dropped.
  function Args(ts: seq<Tok>, err: bool, args: seq<Expr>): (r: ParsedArgs)
    ensures |r.rest| <= |ts|
    decreases |ts|, 3
  {
    if ts == [] || ts[0] == RParen || err then ParsedArgs(args, ts, err)
    else
      var r := Binop(ts, 1, err);
      if r.expr.None? then ParsedArgs(args, r.rest, r.err)
      else Args(AfterComma(r.rest), r.err, Cap(args + [r.expr.value]))
  }

  function AfterComma(ts: seq<Tok>): (r: seq<Tok>)
    ensures |r| <= |ts|
  {
    if StartsWith(ts, Comma) then ts[1..] else ts
  }

  function Binop(ts: seq<Tok>, min: nat, err: bool): (r: Parse)
    requires min >= 1
    ensures |r.rest| <= |ts| && (r.expr.Some? ==> |r.rest| < |ts|)
    decreases |ts|, 2
  {
    var l := Primary(ts, err);
    if l.expr.None? then l else Climb(l.expr.value, l.rest, min, l.err)
  }

  function Climb(left: Expr, ts: seq<Tok>, min: nat, err: bool): (r: Parse)
    requires min >= 1
    ensures r.expr.Some? && |r.rest| <= |ts|
    decreases |ts|, 1
  {
    var prec := TokPrec(ts);
    if prec < min then Parse(Some(left), ts, err)
    else
      var r := Binop(ts[1..], prec + 1, err);
      if r.expr.None? then Parse(Some(left), r.rest, r.err)
      else Climb(Bin(OperatorOf(ts[0]).value, left, r.expr.value), r.rest, min, r.err)
  }

  // ----- The grammar

  datatype Cst =
    | CAtom(tok: Tok)
    | CReg(path: string)
    | CDeref(path: string)
    | CIndex(name: string, index: Cst)
    | CCall(name: string, args: CArgs)
    | CParen(inner: Cst)
    | CNot(keyword: bool, arg: Cst)
    | CBin(tok: Tok, left: Cst, right: Cst)

  datatype CArgs = NoArgs | CArg(e: Cst, comma: bool, rest: CArgs)

  // The tokens of a tree, in order.
  function Yield(c: Cst): seq<Tok> {
    match c
    case CAtom(t) => [t]
    case CReg(p) => [KwReg, RegPath(p)]
    case CDeref(p) => [KwDeref, RegPath(p)]
    case CIndex(name, e) => [Ident(name), LBracket] + Yield(e) + [RBracket]
    case CCall(name, args) => [Ident(name), LParen] + YieldArgs(args) + [RParen]
    case CParen(e) => [LParen] + Yield(e) + [RParen]
    case CNot(kw, e) => [NotTok(kw)] + Yield(e)
    case CBin(t, l, r) => Yield(l) + [t] + Yield(r)
  }

  function YieldArgs(args: CArgs): seq<Tok> {
    match args
    case NoArgs => []
    case CArg(e, comma, rest) => Yield(e) + ((if comma then [Comma] else []) + YieldArgs(rest))
  }

  function CstPrec(c: Cst): nat
    requires c.CBin? && OperatorOf(c.tok).Some?
  {
    Prec(OperatorOf(c.tok).value)
  }

  // A tree whose last token is a plain name.
  predicate EndsName(c: Cst) {
    match c
    case CAtom(t) => t.Ident?
    case CNot(_, e) => EndsName(e)
    case CBin(_, _, r) => EndsName(r)
    case _ => false
  }

  // A name may not be followed by the opening of an index or a call.
  predicate Follows(c: Cst, ts: seq<Tok>) { EndsName(c) ==> !StartsWith(ts, LParen) && !StartsWith(ts, LBracket) }

  // ts neither continues the expression c nor an operator of it.
  predicate Detached(c: Cst, ts: seq<Tok>) { Follows(c, ts) && TokPrec(ts) == 0 }

  // An unbracketed left operand is at least as tight as its operator, a right operand strictly tighter;
  // an argument without a comma ends before the next one begins.
  ghost predicate Shaped(c: Cst) {
    match c
    case CAtom(t) => IsAtom(t)
    case CReg(_) => true
    case CDeref(_) => true
    case CIndex(_, e) => Shaped(e)
    case CCall(_, args) => ShapedArgs(args)
    case CParen(e) => Shaped(e)
    case CNot(_, e) => !e.CBin? && Shaped(e)
    case CBin(t, l, r) =>
      && OperatorOf(t).Some? && Shaped(l) && Shaped(r)
      && (l.CBin? ==> CstPrec(l) >= Prec(OperatorOf(t).value))
      && (r.CBin? ==> CstPrec(r) > Prec(OperatorOf(t).value))
  }

  ghost predicate ShapedArgs(args: CArgs) {
    match args
    case NoArgs => true
    case CArg(e, comma, rest) => Shaped(e) && ShapedArgs(rest) && (comma || Detached(e, YieldArgs(rest) + [RParen]))
  }

  function Strip(c: Cst): Expr
    requires Shaped(c)
  {
    match c
    case CAtom(t) => Atom(t)
    case CReg(p) => Atom(RegPath(p))
    case CDeref(p) => Deref(p)
    case CIndex(name, e) => Index(name, Strip(e))
    case CCall(name, args) => Call(name, Cap(StripArgs(args)))
    case CParen(e) => Strip(e)
    case CNot(_, e) => Not(Strip(e))
    case CBin(t, l, r) => Bin(OperatorOf(t).value, Strip(l), Strip(r))
  }

  function StripArgs(args: CArgs): seq<Expr>
    requires ShapedArgs(args)
  {
    match args
    case NoArgs => []
    case CArg(e, _, rest) => [Strip(e)] + StripArgs(rest)
  }

  // The first token of a tree.
  lemma {:induction false} FirstToken(c: Cst)
    requires Shaped(c)
    ensures Yield(c) != [] && Yield(c)[0] != RParen && Yield(c)[0] != Comma
  {
    if c.CBin? { FirstToken(c.left); }
  }

  lemma ArgsFirst(args: CArgs, rest: seq<Tok>)
    requires ShapedArgs(args) && StartsWith(rest, RParen)
    ensures (YieldArgs(args) + rest) != [] && (YieldArgs(args) + rest)[0] == (YieldArgs(args) + [RParen])[0]
    ensures !StartsWith(YieldArgs(args) + rest, Comma)
    ensures args.CArg? ==> (YieldArgs(args) + rest)[0] != RParen
  {
    hide Yield;
    if args.CArg? {
      FirstToken(args.e);
      assert (YieldArgs(args) + rest)[0] == Yield(args.e)[0];
      assert (YieldArgs(args) + [RParen])[0] == Yield(args.e)[0];
    } else {
      assert YieldArgs(args) + rest == rest;
    }
  }

  lemma SameFirst(c: Cst, a: seq<Tok>, b: seq<Tok>)
    requires a != [] && b != [] && a[0] == b[0]
    ensures Detached(c, a) <==> Detached(c, b)
  {
  }

  // ----- Every well-shaped tree is parsed back

  lemma ClimbStops(left: Expr, ts: seq<Tok>, min: nat, err: bool)
    requires TokPrec(ts) < min
    ensures Climb(left, ts, min, err) == Parse(Some(left), ts, err)
  {
  }

  lemma ClimbOne(left: Expr, ts: seq<Tok>, min: nat, err: bool)
    requires TokPrec(ts) >= min >= 1
    ensures
      var r := Binop(ts[1..], TokPrec(ts) + 1, err);
      Climb(left, ts, min, err) ==
        if r.expr.None? then Parse(Some(left), r.rest, r.err)
        else Climb(Bin(OperatorOf(ts[0]).value, left, r.expr.value), r.rest, min, r.err)
  {
  }

  // What is left after the opening tokens.
  lemma Unbracket(open: seq<Tok>, inner: seq<Tok>, close: Tok, rest: seq<Tok>)
    ensures (open + inner + [close] + rest)[|open|..] == inner + ([close] + rest)
    ensures ([close] + rest)[1..] == rest
  {
  }

  lemma PrimaryName(ts: seq<Tok>, err: bool)
    requires ts != [] && ts[0].Ident?
    ensures Primary(ts, err) == AfterName(ts[0].text, ts[1..], err)
  {
  }

  lemma IndexRead(name: string, e: Cst, rest: seq<Tok>)
    requires Binop(Yield(e) + ([RBracket] + rest), 1, false).expr.Some?
    requires Binop(Yield(e) + ([RBracket] + rest), 1, false).rest == [RBracket] + rest
    ensures
      var r := Binop(Yield(e) + ([RBracket] + rest), 1, false);
      Primary(Yield(CIndex(name, e)) + rest, false) == Parse(Some(Index(name, r.expr.value)), rest, r.err)
  {
    hide Binop, Climb, Args, Primary;
    var ts := Yield(CIndex(name, e)) + rest;
    Unbracket([Ident(name), LBracket], Yield(e), RBracket, rest);
    assert ts[0] == Ident(name) && ts[1..][0] == LBracket && ts[1..][1..] == ts[2..];
    PrimaryName(ts, false);
  }

  lemma CallRead(name: string, args: CArgs, rest: seq<Tok>, exprs: seq<Expr>)
    requires Args(YieldArgs(args) + ([RParen] + rest), false, []) == ParsedArgs(exprs, [RParen] + rest, false)
    ensures Primary(Yield(CCall(name, args)) + rest, false) == Parse(Some(Call(name, exprs)), rest, false)
  {
    hide Binop, Climb, Args, Primary;
    var ts := Yield(CCall(name, args)) + rest;
    Unbracket([Ident(name), LParen], YieldArgs(args), RParen, rest);
    assert ts[0] == Ident(name) && ts[1..][0] == LParen && ts[1..][1..] == ts[2..];
    PrimaryName(ts, false);
  }

  lemma ParenRead(e: Cst, rest: seq<Tok>)
    requires Binop(Yield(e) + ([RParen] + rest), 1, false).rest == [RParen] + rest
    ensures
      var r := Binop(Yield(e) + ([RParen] + rest), 1, false);
      Primary(Yield(CParen(e)) + rest, false) == Parse(r.expr, rest, r.err)
  {
    hide Binop, Climb, AfterName;
    var ts := Yield(CParen(e)) + rest;
    Unbracket([LParen], Yield(e), RParen, rest);
    assert ts[0] == LParen;
  }

  lemma NotStep(ts: seq<Tok>)
    requires ts != [] && ts[0].NotTok? && Primary(ts[1..], false).expr.Some?
    ensures
      var r := Primary(ts[1..], false);
      Primary(ts, false) == Parse(Some(Not(r.expr.value)), r.rest, r.err)
  {
    hide Binop, Climb, AfterName;
  }

  lemma NotRead(kw: bool, e: Cst, rest: seq<Tok>)
    requires Primary(Yield(e) + rest, false).expr.Some?
    ensures
      var r := Primary(Yield(e) + rest, false);
      Primary(Yield(CNot(kw, e)) + rest, false) == Parse(Some(Not(r.expr.value)), r.rest, r.err)
  {
    hide Primary, Binop, Climb;
    var ts := Yield(CNot(kw, e)) + rest;
    assert ts[0] == NotTok(kw) && ts[1..] == Yield(e) + rest;
    NotStep(ts);
  }

  lemma AtomRead(c: Cst, rest: seq<Tok>)
    requires c.CAtom? || c.CReg? || c.CDeref?
    requires Shaped(c) && Follows(c, rest)
    ensures Primary(Yield(c) + rest, false) == Parse(Some(Strip(c)), rest, false)
  {
    hide Binop, Climb, Args;
    var ts := Yield(c) + rest;
    if c.CAtom? {
      assert ts[0] == c.tok && ts[1..] == rest;
    } else {
      assert ts[1] == RegPath(c.path) && ts[2..] == rest;
    }
  }

  lemma {:induction false} PrimaryReads(c: Cst, rest: seq<Tok>)
    requires Shaped(c) && !c.CBin? && Follows(c, rest)
    ensures Primary(Yield(c) + rest, false) == Parse(Some(Strip(c)), rest, false)
    decreases c, 0
  {
    hide Primary, Binop, Climb, Yield, YieldArgs, Args;
    match c
    case CIndex(name, e) =>
      ClimbReads(e, [RBracket] + rest, 1);
      ClimbStops(Strip(e), [RBracket] + rest, 1, false);
      IndexRead(name, e, rest);
    case CCall(name, args) =>
      ArgsRead(args, [RParen] + rest, []);
      assert [] + StripArgs(args) == StripArgs(args);
      CallRead(name, args, rest, Cap(StripArgs(args)));
    case CParen(e) =>
      ClimbReads(e, [RParen] + rest, 1);
      ClimbStops(Strip(e), [RParen] + rest, 1, false);
      ParenRead(e, rest);
    case CNot(kw, e) =>
      PrimaryReads(e, rest);
      NotRead(kw, e, rest);
    case _ => AtomRead(c, rest);
  }

  lemma YieldBin(c: Cst, rest: seq<Tok>)
    requires c.CBin?
    ensures Yield(c) + rest == Yield(c.left) + ([c.tok] + (Yield(c.right) + rest))
    ensures ([c.tok] + (Yield(c.right) + rest))[1..] == Yield(c.right) + rest
  {
    assert Yield(c) == Yield(c.left) + [c.tok] + Yield(c.right);
  }

  // Climbing over the tokens of a tree leaves the parser as if it had just finished that tree.
  lemma {:induction false} ClimbReads(c: Cst, rest: seq<Tok>, min: nat)
    requires Shaped(c) && min >= 1 && Follows(c, rest)
    requires c.CBin? ==> CstPrec(c) >= min && TokPrec(rest) <= CstPrec(c)
    ensures Binop(Yield(c) + rest, min, false) == Climb(Strip(c), rest, min, false)
    decreases c, 1
  {
    hide Primary, Climb, ShapedArgs, Yield;
    if !c.CBin? {
      PrimaryReads(c, rest);
    } else {
      var p, after := CstPrec(c), Yield(c.right) + rest;
      YieldBin(c, rest);
      ClimbReads(c.left, [c.tok] + after, min);
      ClimbOne(Strip(c.left), [c.tok] + after, min, false);
      ClimbReads(c.right, rest, p + 1);
      ClimbStops(Strip(c.right), rest, p + 1, false);
    }
  }

  lemma CapAppend(args: seq<Expr>, e: Expr, more: seq<Expr>)
    ensures Cap(Cap(args + [e]) + more) == Cap(args + ([e] + more))
  {
    assert (args + [e]) + more == args + ([e] + more);
  }

  lemma ArgsStep(ts: seq<Tok>, args: seq<Expr>)
    requires ts != [] && ts[0] != RParen && Binop(ts, 1, false).expr.Some?
    ensures
      var r := Binop(ts, 1, false);
      Args(ts, false, args) == Args(AfterComma(r.rest), r.err, Cap(args + [r.expr.value]))
  {
    hide Binop;
  }

  lemma ArgsStop(ts: seq<Tok>, err: bool, args: seq<Expr>)
    requires ts == [] || ts[0] == RParen || err
    ensures Args(ts, err, args) == ParsedArgs(args, ts, err)
  {
    hide Binop;
  }

  lemma {:induction false} ArgsRead(args: CArgs, rest: seq<Tok>, done: seq<Expr>)
    requires ShapedArgs(args) && StartsWith(rest, RParen) && |done| <= MAX_PARAMS
    ensures Args(YieldArgs(args) + rest, false, done) == ParsedArgs(Cap(done + StripArgs(args)), rest, false)
    decreases args, 0
  {
    hide Binop, Climb, Yield, Args, Shaped;
    match args
    case NoArgs =>
      assert YieldArgs(args) + rest == rest && done + [] == done;
      ArgsStop(rest, false, done);
    case CArg(e, comma, more) =>
      var next := YieldArgs(more) + rest;
      var after := (if comma then [Comma] else []) + next;
      assert YieldArgs(args) + rest == Yield(e) + after;
      ArgsFirst(args, rest);
      ArgsFirst(more, rest);
      if !comma {
        assert after == next;
        SameFirst(e, YieldArgs(more) + [RParen], after);
      }
      assert AfterComma(after) == next;
      ClimbReads(e, after, 1);
      ClimbStops(Strip(e), after, 1, false);
      ArgsStep(Yield(e) + after, done);
      ArgsRead(more, rest, Cap(done + [Strip(e)]));
      CapAppend(done, Strip(e), StripArgs(more));
  }

  // ----- Whatever is parsed without error was such a tree

  // Every `reg` has its path.
  ghost predicate RegComplete(ts: seq<Tok>) {
    forall i :: 0 <= i < |ts| && ts[i].KwReg? ==> i + 1 < |ts| && ts[i + 1].RegPath?
  }

  lemma RegSuffix(ts: seq<Tok>, k: nat)
    requires RegComplete(ts) && k <= |ts|
    ensures RegComplete(ts[k..])
  {
    forall i | 0 <= i < |ts[k..]| && ts[k..][i].KwReg? ensures i + 1 < |ts[k..]| && ts[k..][i + 1].RegPath? {
      assert ts[k + i].KwReg?;
    }
  }

  lemma RegRest(front: seq<Tok>, rest: seq<Tok>)
    requires RegComplete(front + rest)
    ensures RegComplete(rest)
  {
    RegSuffix(front + rest, |front|);
    assert (front + rest)[|front|..] == rest;
  }

  lemma {:induction false} NothingIsAnError(ts: seq<Tok>, min: nat, err: bool)
    requires min >= 1 && RegComplete(ts)
    ensures Primary(ts, err).expr.None? ==> Primary(ts, err).err
    ensures Binop(ts, min, err).expr.None? ==> Binop(ts, min, err).err
    decreases |ts|
  {
    hide Primary, Climb, Args, RegComplete, AfterName;
    PrimaryCases(ts, err);
    if |ts| > 0 {
      RegSuffix(ts, 1);
      NothingIsAnError(ts[1..], 1, err);
      RegHead(ts);
      if |ts| > 1 {
        RegSuffix(ts, 2);
        NothingIsAnError(ts[2..], 1, err);
      }
      if ts[0].Ident? { NamelessIsError(ts, err); }
    }
  }

  lemma RegHead(ts: seq<Tok>)
    requires RegComplete(ts) && ts != []
    ensures ts[0].KwReg? ==> PathFollows(ts)
  {
  }

  lemma NamelessIsError(ts: seq<Tok>, err: bool)
    requires ts != [] && ts[0].Ident?
    requires |ts| > 1 ==> (Binop(ts[2..], 1, err).expr.None? ==> Binop(ts[2..], 1, err).err)
    ensures AfterName(ts[0].text, ts[1..], err).expr.None? ==> AfterName(ts[0].text, ts[1..], err).err
  {
    hide Binop, Args;
    if |ts| > 1 { assert ts[1..][1..] == ts[2..]; }
  }

  // An error that has been recorded stays recorded.
  lemma {:induction false} ErrorStays(ts: seq<Tok>, min: nat)
    requires min >= 1
    ensures Primary(ts, true).err && Binop(ts, min, true).err
    decreases |ts|, 1
  {
    hide Climb, Args;
    if |ts| > 0 { ErrorStays(ts[1..], 1); }
    if |ts| > 1 {
      ErrorStays(ts[2..], 1);
      ArgsStop(ts[2..], true, []);
      assert ts[1..][1..] == ts[2..];
    }
    var l := Primary(ts, true);
    if l.expr.Some? { ClimbErrorStays(l.expr.value, l.rest, min); }
  }

  lemma {:induction false} ClimbErrorStays(left: Expr, ts: seq<Tok>, min: nat)
    requires min >= 1
    ensures Climb(left, ts, min, true).err
    decreases |ts|, 0
  {
    hide Primary, Binop, Climb;
    if TokPrec(ts) < min {
      ClimbStops(left, ts, min, true);
    } else {
      ClimbOne(left, ts, min, true);
      ErrorStays(ts[1..], TokPrec(ts) + 1);
      var r := Binop(ts[1..], TokPrec(ts) + 1, true);
      if r.expr.Some? { ClimbErrorStays(Bin(OperatorOf(ts[0]).value, left, r.expr.value), r.rest, min); }
    }
  }

  ghost predicate Reads(c: Cst, ts: seq<Tok>, r: Parse) {
    Shaped(c) && r.expr == Some(Strip(c)) && ts == Yield(c) + r.rest && Follows(c, r.rest)
  }

  ghost predicate BoundBy(c: Cst, min: nat, rest: seq<Tok>) {
    TokPrec(rest) < min && (c.CBin? && OperatorOf(c.tok).Some? ==> CstPrec(c) >= min)
  }

  lemma Enclose(open: seq<Tok>, inner: seq<Tok>, close: Tok, ts: seq<Tok>, rest: seq<Tok>)
    requires open <= ts && ts[|open|..] == inner + rest && StartsWith(rest, close)
    ensures ts == open + inner + [close] + rest[1..]
  {
    assert ts == open + ts[|open|..];
    assert rest == [close] + rest[1..];
  }

  lemma ParenSound(ts: seq<Tok>, e: Cst)
    requires StartsWith(ts, LParen) && !Primary(ts, false).err && Reads(e, ts[1..], Binop(ts[1..], 1, false))
    ensures Reads(CParen(e), ts, Primary(ts, false))
  {
    hide Binop, Climb, AfterName;
    Enclose([LParen], Yield(e), RParen, ts, Binop(ts[1..], 1, false).rest);
  }

  lemma IndexSound(ts: seq<Tok>, e: Cst)
    requires ts != [] && ts[0].Ident? && StartsWith(ts[1..], LBracket)
    requires !Primary(ts, false).err && Reads(e, ts[2..], Binop(ts[2..], 1, false))
    ensures Reads(CIndex(ts[0].text, e), ts, Primary(ts, false))
  {
    hide Binop, Climb, Primary, Args;
    PrimaryName(ts, false);
    assert ts[1..][1..] == ts[2..];
    Enclose([ts[0], LBracket], Yield(e), RBracket, ts, Binop(ts[2..], 1, false).rest);
  }

  lemma CallSound(ts: seq<Tok>, args: CArgs)
    requires ts != [] && ts[0].Ident? && StartsWith(ts[1..], LParen) && !Primary(ts, false).err
    requires ShapedArgs(args) && ts[2..] == YieldArgs(args) + Args(ts[2..], false, []).rest
    requires Args(ts[2..], false, []).args == Cap(StripArgs(args))
    ensures Reads(CCall(ts[0].text, args), ts, Primary(ts, false))
  {
    hide Binop, Climb, Primary, Args;
    PrimaryName(ts, false);
    assert ts[1..][1..] == ts[2..];
    Enclose([ts[0], LParen], YieldArgs(args), RParen, ts, Args(ts[2..], false, []).rest);
  }

  lemma NotSound(ts: seq<Tok>, e: Cst)
    requires ts != [] && ts[0].NotTok? && Reads(e, ts[1..], Primary(ts[1..], false)) && !e.CBin?
    ensures Reads(CNot(ts[0].keyword, e), ts, Primary(ts, false))
  {
    hide Primary, Binop, Climb, Shaped, Strip, Yield, EndsName;
    NotTree(ts[0].keyword, e);
    assert ts == [ts[0]] + ts[1..];
    assert [ts[0]] + (Yield(e) + Primary(ts[1..], false).rest) == ([ts[0]] + Yield(e)) + Primary(ts[1..], false).rest;
    NotStep(ts);
  }

  lemma NotTree(kw: bool, e: Cst)
    requires Shaped(e) && !e.CBin?
    ensures
      var c := CNot(kw, e);
      Shaped(c) && Strip(c) == Not(Strip(e)) && Yield(c) == [NotTok(kw)] + Yield(e) && (EndsName(c) <==> EndsName(e))
  {
  }

  lemma AtomSound(ts: seq<Tok>) returns (c: Cst)
    requires !Primary(ts, false).err && RegComplete(ts)
    requires ts != [] && !ts[0].LParen? && !ts[0].NotTok?
    requires ts[0].Ident? ==> !StartsWith(ts[1..], LBracket) && !StartsWith(ts[1..], LParen)
    ensures Reads(c, ts, Primary(ts, false)) && !c.CBin?
  {
    hide Binop, Climb, Args;
    assert ts == [ts[0]] + ts[1..];
    if ts[0].KwReg? || ts[0].KwDeref? {
      assert PathFollows(ts) && ts == [ts[0], ts[1]] + ts[2..];
      c := if ts[0].KwReg? then CReg(ts[1].text) else CDeref(ts[1].text);
    } else {
      c := CAtom(ts[0]);
    }
  }

  lemma {:induction false} PrimarySound(ts: seq<Tok>) returns (c: Cst)
    requires !Primary(ts, false).err && RegComplete(ts)
    ensures Reads(c, ts, Primary(ts, false)) && !c.CBin?
    decreases |ts|, 0
  {
    hide Binop, Climb, Args, Reads, RegComplete;
    NothingIsAnError(ts, 1, false);
    RegSuffix(ts, 1);
    if ts[0].LParen? {
      var e := BinopSound(ts[1..], 1);
      ParenSound(ts, e);
      return CParen(e);
    } else if ts[0].NotTok? {
      var e := PrimarySound(ts[1..]);
      NotSound(ts, e);
      return CNot(ts[0].keyword, e);
    } else if ts[0].Ident? && StartsWith(ts[1..], LBracket) {
      RegSuffix(ts, 2);
      assert ts[1..][1..] == ts[2..];
      var e := BinopSound(ts[2..], 1);
      IndexSound(ts, e);
      return CIndex(ts[0].text, e);
    } else if ts[0].Ident? && StartsWith(ts[1..], LParen) {
      RegSuffix(ts, 2);
      assert ts[1..][1..] == ts[2..];
      var args := ArgsSound(ts[2..], []);
      assert [] + StripArgs(args) == StripArgs(args);
      CallSound(ts, args);
      return CCall(ts[0].text, args);
    } else {
      c := AtomSound(ts);
    }
  }

  lemma {:induction false} BinopSound(ts: seq<Tok>, min: nat) returns (c: Cst)
    requires min >= 1 && !Binop(ts, min, false).err && RegComplete(ts)
    ensures Reads(c, ts, Binop(ts, min, false)) && BoundBy(c, min, Binop(ts, min, false).rest)
    decreases |ts|, 2
  {
    hide Primary, Climb, RegComplete;
    NothingIsAnError(ts, min, false);
    var l := Primary(ts, false);
    if l.err { ClimbErrorStays(l.expr.value, l.rest, min); }
    var left := PrimarySound(ts);
    RegRest(Yield(left), l.rest);
    c := ClimbSound(left, l.rest, min);
  }

  lemma {:induction false} ClimbSound(left: Cst, ts: seq<Tok>, min: nat) returns (c: Cst)
    requires Shaped(left) && min >= 1 && !Climb(Strip(left), ts, min, false).err && RegComplete(ts) && Follows(left, ts)
    requires left.CBin? ==> CstPrec(left) >= min && TokPrec(ts) <= CstPrec(left)
    ensures
      var r := Climb(Strip(left), ts, min, false);
      Reads(c, Yield(left) + ts, r) && BoundBy(c, min, r.rest)
    decreases |ts|, 1
  {
    hide Primary, Binop, Climb, RegComplete, Shaped, Strip, Yield, EndsName;
    if TokPrec(ts) < min {
      ClimbStops(Strip(left), ts, min, false);
      c := left;
    } else {
      ClimbOne(Strip(left), ts, min, false);
      RegSuffix(ts, 1);
      NothingIsAnError(ts[1..], TokPrec(ts) + 1, false);
      var r := Binop(ts[1..], TokPrec(ts) + 1, false);
      if r.err && r.expr.Some? { ClimbErrorStays(Bin(OperatorOf(ts[0]).value, Strip(left), r.expr.value), r.rest, min); }
      var right := BinopSound(ts[1..], TokPrec(ts) + 1);
      RegRest(Yield(right), r.rest);
      var joined := CBin(ts[0], left, right);
      Joined(left, ts, right, r.rest);
      c := ClimbSound(joined, r.rest, min);
    }
  }

  // Two operands and the operator between them.
  lemma Joined(left: Cst, ts: seq<Tok>, right: Cst, rest: seq<Tok>)
    requires Shaped(left) && Shaped(right) && TokPrec(ts) >= 1 && ts[1..] == Yield(right) + rest && Follows(right, rest)
    requires left.CBin? ==> TokPrec(ts) <= CstPrec(left)
    requires right.CBin? && OperatorOf(right.tok).Some? ==> CstPrec(right) >= TokPrec(ts) + 1
    ensures
      var c := CBin(ts[0], left, right);
      && Shaped(c) && Strip(c) == Bin(OperatorOf(ts[0]).value, Strip(left), Strip(right))
      && Yield(left) + ts == Yield(c) + rest && Follows(c, rest) && CstPrec(c) == TokPrec(ts)
  {
    var c := CBin(ts[0], left, right);
    YieldBin(c, rest);
    assert ts == [ts[0]] + ts[1..];
  }

  lemma {:induction false} ArgsSound(ts: seq<Tok>, done: seq<Expr>) returns (args: CArgs)
    requires !Args(ts, false, done).err && StartsWith(Args(ts, false, done).rest, RParen) && RegComplete(ts) && |done| <= MAX_PARAMS
    ensures ShapedArgs(args) && ts == YieldArgs(args) + Args(ts, false, done).rest
    ensures Args(ts, false, done).args == Cap(done + StripArgs(args))
    decreases |ts|, 3
  {
    hide Primary, Binop, Climb, RegComplete, Args, Shaped, Yield, Strip;
    if ts == [] || ts[0] == RParen {
      ArgsStop(ts, false, done);
      args := NoArgs;
      assert done + [] == done && [] + ts == ts;
    } else {
      NothingIsAnError(ts, 1, false);
      if Binop(ts, 1, false).expr.None? { ArgsNone(ts, done); }
      var r := Binop(ts, 1, false);
      ArgsStep(ts, done);
      var next := AfterComma(r.rest);
      ArgsStop(next, true, Cap(done + [r.expr.value]));
      var e := BinopSound(ts, 1);
      RegRest(Yield(e), r.rest);
      if StartsWith(r.rest, Comma) { RegSuffix(r.rest, 1); }
      var more := ArgsSound(next, Cap(done + [Strip(e)]));
      args := CArg(e, StartsWith(r.rest, Comma), more);
      CapAppend(done, Strip(e), StripArgs(more));
      ArgSound(e, more, r.rest, Args(ts, false, done).rest);
    }
  }

  lemma ArgsNone(ts: seq<Tok>, done: seq<Expr>)
    requires ts != [] && ts[0] != RParen && Binop(ts, 1, false).expr.None?
    ensures Args(ts, false, done) == ParsedArgs(done, Binop(ts, 1, false).rest, Binop(ts, 1, false).err)
  {
    hide Binop;
  }

  // One argument in front of the others.
  lemma ArgSound(e: Cst, more: CArgs, after: seq<Tok>, rest: seq<Tok>)
    requires Shaped(e) && ShapedArgs(more) && Follows(e, after) && TokPrec(after) < 1 && StartsWith(rest, RParen)
    requires AfterComma(after) == YieldArgs(more) + rest
    ensures
      var args := CArg(e, StartsWith(after, Comma), more);
      ShapedArgs(args) && Yield(e) + after == YieldArgs(args) + rest
  {
    hide Yield, Shaped;
    ArgsFirst(more, rest);
    if StartsWith(after, Comma) {
      assert after == [Comma] + after[1..];
    } else {
      SameFirst(e, YieldArgs(more) + [RParen], after);
    }
  }

  // ----- The main results

  // In the tokens of a tree every `reg` has its path.
  lemma {:induction false} YieldRegComplete(c: Cst)
    ensures Shaped(c) ==> RegComplete(Yield(c))
    decreases c
  {
    if Shaped(c) {
      match c
      case CIndex(_, e) => YieldRegComplete(e);
      case CCall(_, args) => YieldArgsRegComplete(args);
      case CParen(e) => YieldRegComplete(e);
      case CNot(_, e) => YieldRegComplete(e);
      case CBin(_, l, r) =>
        YieldRegComplete(l);
        YieldRegComplete(r);
      case _ =>
    }
  }

  lemma {:induction false} YieldArgsRegComplete(args: CArgs)
    ensures ShapedArgs(args) ==> RegComplete(YieldArgs(args))
    decreases args
  {
    if args.CArg? {
      YieldRegComplete(args.e);
      YieldArgsRegComplete(args.rest);
    }
  }

  /**
   * The parser takes a token list, in which every `reg` has its path, to its end without error
   * exactly when the list is read off a well-shaped tree, and then returns that tree without its
   * brackets.
   */
  lemma ParsesExactlyTheGrammar(ts: seq<Tok>, e: Expr)
    ensures (RegComplete(ts) && Binop(ts, 1, false) == Parse(Some(e), [], false)) <==>
            (exists c :: Shaped(c) && Yield(c) == ts && Strip(c) == e)
  {
    hide Primary, Binop, Climb, Shaped, Strip, Yield, RegComplete;
    if RegComplete(ts) && Binop(ts, 1, false) == Parse(Some(e), [], false) {
      var c := BinopSound(ts, 1);
      assert Yield(c) + [] == Yield(c);
    }
    forall c | Shaped(c) && Yield(c) == ts && Strip(c) == e
      ensures RegComplete(ts) && Binop(ts, 1, false) == Parse(Some(e), [], false)
    {
      ShapedParses(c);
      YieldRegComplete(c);
    }
  }

  lemma ShapedParses(c: Cst)
    requires Shaped(c)
    ensures Binop(Yield(c), 1, false) == Parse(Some(Strip(c)), [], false)
  {
    hide Primary, Binop, Climb, Strip, Yield;
    assert Yield(c) + [] == Yield(c);
    ClimbReads(c, [], 1);
    ClimbStops(Strip(c), [], 1, false);
  }

  // `1 + reg` is accepted as 1: the missing path goes unnoticed, and so does the operator before it.
  lemma DanglingReg()
    ensures
      var ts := [Literal("1"), Op(Plus), KwReg];
      && Binop(ts, 1, false) == Parse(Some(Atom(Literal("1"))), [], false)
      && !exists c :: Shaped(c) && Yield(c) == ts
  {
    var ts := [Literal("1"), Op(Plus), KwReg];
    assert ts[1..] == [Op(Plus), KwReg] && ts[1..][1..] == [KwReg] && [KwReg][1..] == [];
    assert Primary([KwReg], false) == Parse(None, [], false);
    assert Binop([KwReg], 6, false) == Parse(None, [], false);
    ClimbOne(Atom(ts[0]), ts[1..], 1, false);
    assert !RegComplete(ts) by { assert ts[2].KwReg?; }
    forall c ensures !(Shaped(c) && Yield(c) == ts) { YieldRegComplete(c); }
  }

  // Two well-shaped trees with the same tokens differ in nothing but what the parser drops.
  lemma GrammarUnambiguous(c: Cst, d: Cst)
    requires Shaped(c) && Shaped(d) && Yield(c) == Yield(d)
    ensures Strip(c) == Strip(d)
  {
    hide Primary, Binop, Climb, Strip, Yield, Shaped;
    ShapedParses(c);
    ShapedParses(d);
  }

  // ----- Printing with the fewest brackets

  ghost predicate Printable(e: Expr) {
    match e
    case Atom(t) => IsAtom(t)
    case Deref(_) => true
    case Index(_, i) => Printable(i)
    case Call(_, args) => |args| <= MAX_PARAMS && forall a <- args :: Printable(a)
    case Not(a) => Printable(a)
    case Bin(_, l, r) => Printable(l) && Printable(r)
    case Missing => false
  }

  function Guard(c: Cst, needed: bool): Cst { if needed then CParen(c) else c }

  function Bracket(e: Expr): Cst
    requires Printable(e)
    decreases e, 1
  {
    match e
    case Atom(t) => CAtom(t)
    case Deref(p) => CDeref(p)
    case Index(name, i) => CIndex(name, Bracket(i))
    case Call(name, args) => CCall(name, BracketArgs(args))
    case Not(a) => CNot(false, Guard(Bracket(a), a.Bin?))
    case Bin(op, l, r) =>
      CBin(Op(op), Guard(Bracket(l), l.Bin? && Prec(l.op) < Prec(op)), Guard(Bracket(r), r.Bin? && Prec(r.op) <= Prec(op)))
  }

  // Arguments with a comma between them.
  function BracketArgs(args: seq<Expr>): CArgs
    requires forall a <- args :: Printable(a)
    decreases args, 0
  {
    if args == [] then NoArgs else CArg(Bracket(args[0]), |args| > 1, BracketArgs(args[1..]))
  }

  function Brackets(c: Cst): nat {
    match c
    case CIndex(_, e) => Brackets(e)
    case CCall(_, args) => BracketsIn(args)
    case CParen(e) => 1 + Brackets(e)
    case CNot(_, e) => Brackets(e)
    case CBin(_, l, r) => Brackets(l) + Brackets(r)
    case _ => 0
  }

  function BracketsIn(args: CArgs): nat {
    match args
    case NoArgs => 0
    case CArg(e, _, rest) => Brackets(e) + BracketsIn(rest)
  }

  lemma {:induction false} BracketShaped(e: Expr)
    requires Printable(e)
    ensures Shaped(Bracket(e)) && Strip(Bracket(e)) == e
    ensures Bracket(e).CBin? == e.Bin? && !Bracket(e).CParen?
    ensures e.Bin? ==> Bracket(e).tok == Op(e.op)
    decreases e, 1
  {
    match e
    case Index(_, i) => BracketShaped(i);
    case Call(_, args) => BracketArgsShaped(args);
    case Not(a) => BracketShaped(a);
    case Bin(_, l, r) =>
      BracketShaped(l);
      BracketShaped(r);
    case _ =>
  }

  lemma {:induction false} BracketArgsShaped(args: seq<Expr>)
    requires forall a <- args :: Printable(a)
    ensures ShapedArgs(BracketArgs(args)) && StripArgs(BracketArgs(args)) == args
    decreases args, 0
  {
    hide Shaped, Yield, Strip, Bracket;
    if args != [] {
      BracketShaped(args[0]);
      BracketArgsShaped(args[1..]);
      if |args| == 1 { assert YieldArgs(BracketArgs(args[1..])) + [RParen] == [RParen]; }
    }
  }

  // Parsing what is printed gives the expression back.
  lemma PrintParse(e: Expr)
    requires Printable(e)
    ensures Binop(Yield(Bracket(e)), 1, false) == Parse(Some(e), [], false)
  {
    hide Primary, Binop, Climb;
    BracketShaped(e);
    ShapedParses(Bracket(e));
  }

  lemma {:induction false} StripPrintable(c: Cst)
    requires Shaped(c)
    ensures Printable(Strip(c))
    ensures !c.CParen? ==> Strip(c).Bin? == c.CBin?
    ensures c.CBin? ==> Strip(c).op == OperatorOf(c.tok).value
    decreases c
  {
    match c
    case CIndex(_, e) => StripPrintable(e);
    case CCall(_, args) => StripArgsPrintable(args);
    case CParen(e) => StripPrintable(e);
    case CNot(_, e) => StripPrintable(e);
    case CBin(_, l, r) =>
      StripPrintable(l);
      StripPrintable(r);
    case _ =>
  }

  lemma {:induction false} StripArgsPrintable(args: CArgs)
    requires ShapedArgs(args)
    ensures forall a <- StripArgs(args) :: Printable(a)
    decreases args
  {
    if args.CArg? {
      StripPrintable(args.e);
      StripArgsPrintable(args.rest);
    }
  }

  lemma GuardMinimal(c: Cst, needed: bool)
    requires Shaped(c) && Printable(Strip(c))
    requires Brackets(Bracket(Strip(c))) + (if c.CParen? then 1 else 0) <= Brackets(c)
    requires needed ==> c.CParen?
    ensures Brackets(Guard(Bracket(Strip(c)), needed)) <= Brackets(c)
  {
    hide Shaped, Strip, Bracket;
  }

  // No other spelling of the same expression has fewer brackets.
  lemma {:induction false} PrintMinimal(c: Cst)
    requires Shaped(c)
    ensures Printable(Strip(c)) && Brackets(Bracket(Strip(c))) + (if c.CParen? then 1 else 0) <= Brackets(c)
    decreases c
  {
    StripPrintable(c);
    match c
    case CIndex(_, e) => PrintMinimal(e);
    case CCall(_, args) => PrintArgsMinimal(args, MAX_PARAMS);
    case CParen(e) => PrintMinimal(e);
    case CNot(_, e) =>
      StripPrintable(e);
      PrintMinimal(e);
      GuardMinimal(e, Strip(e).Bin?);
    case CBin(t, l, r) =>
      StripPrintable(l);
      StripPrintable(r);
      PrintMinimal(l);
      PrintMinimal(r);
      var p := Prec(OperatorOf(t).value);
      GuardMinimal(l, Strip(l).Bin? && Prec(Strip(l).op) < p);
      GuardMinimal(r, Strip(r).Bin? && Prec(Strip(r).op) <= p);
    case _ =>
  }

  lemma {:induction false} PrintArgsMinimal(args: CArgs, n: nat)
    requires ShapedArgs(args)
    ensures forall a <- First(StripArgs(args), n) :: Printable(a)
    ensures BracketsIn(BracketArgs(First(StripArgs(args), n))) <= BracketsIn(args)
    decreases args
  {
    hide Shaped, Strip, Bracket, Yield;
    StripArgsPrintable(args);
    if args.CArg? && n > 0 {
      PrintMinimal(args.e);
      PrintArgsMinimal(args.rest, n - 1);
      var all := StripArgs(args);
      assert First(all, n) == [Strip(args.e)] + First(StripArgs(args.rest), n - 1);
      assert First(all, n)[1..] == First(StripArgs(args.rest), n - 1);
    }
  }

  // parse_primary, case by case.
  lemma PrimaryCases(ts: seq<Tok>, err: bool)
    ensures ts == [] ==> Primary(ts, err) == Parse(None, ts, true)
    ensures ts != [] && (ts[0].Literal? || ts[0].RegPath?) ==> Primary(ts, err) == Parse(Some(Atom(ts[0])), ts[1..], err)
    ensures ts != [] && ts[0].KwReg? ==>
      Primary(ts, err) == if PathFollows(ts) then Parse(Some(Atom(ts[1])), ts[1..][1..], err) else Parse(None, ts[1..], err)
    ensures ts != [] && ts[0].KwDeref? ==>
      Primary(ts, err) == if PathFollows(ts) then Parse(Some(Deref(ts[1].text)), ts[1..][1..], err) else Parse(None, ts[1..], true)
    ensures ts != [] && ts[0].Ident? ==> Primary(ts, err) == AfterName(ts[0].text, ts[1..], err)
    ensures ts != [] && ts[0].LParen? ==>
      var r := Binop(ts[1..], 1, err);
      Primary(ts, err) == if StartsWith(r.rest, RParen) then Parse(r.expr, r.rest[1..], r.err) else Parse(r.expr, r.rest, true)
    ensures ts != [] && ts[0].NotTok? ==>
      var r := Primary(ts[1..], err);
      Primary(ts, err) == Parse(Some(Not(if r.expr.Some? then r.expr.value else Missing)), r.rest, r.err)
    ensures ts != [] && (ts[0].Op? || ts[0].KwOr? || ts[0].KwAnd? || ts[0].RParen? || ts[0].LBracket? || ts[0].RBracket? || ts[0].Comma? || ts[0].Other?) ==>
      Primary(ts, err) == Parse(None, ts, true)
  {
    hide Binop, Climb, AfterName;
    if |ts| >= 2 { assert ts[1..][1..] == ts[2..]; }
  }

  // ----- The program

  class Parser {
    const toks: seq<Tok>
    var pos: nat
    var hadError: bool

    constructor (ts: seq<Tok>)
      ensures Valid() && Rest() == ts && !hadError
    {
      toks, pos, hadError := ts, 0, false;
    }

    ghost predicate Valid() reads this { pos <= |toks| }

    // The tokens still to be read; at the end the lexer keeps answering TK_EOF.
    function Rest(): seq<Tok>
      requires Valid()
      reads this
    {
      toks[pos..]
    }

    method Advance()
      requires Valid() && Rest() != []
      modifies this`pos
      ensures Valid() && Rest() == old(Rest())[1..]
    {
      pos := pos + 1;
    }

    method Expect(t: Tok) returns (ok: bool)
      requires Valid()
      modifies this
      ensures Valid() && ok == StartsWith(old(Rest()), t)
      ensures Rest() == if ok then old(Rest())[1..] else old(Rest())
      ensures hadError == (old(hadError) || !ok)
    {
      ok := StartsWith(Rest(), t);
      if ok { Advance(); } else { hadError := true; }
    }

    method ParsePrimary() returns (e: Option<Expr>)
      requires Valid()
      modifies this
      ensures Valid() && Parse(e, Rest(), hadError) == Primary(old(Rest()), old(hadError))
      decreases |toks| - pos, 0
    {
      hide Primary, Climb, Binop, Args, AfterName;
      PrimaryCases(Rest(), hadError);
      if Rest() == [] {
        hadError := true;
        return None;
      }
      var t := toks[pos];
      match t
      case Literal(_) =>
        Advance();
        return Some(Atom(t));
      case RegPath(_) =>
        Advance();
        return Some(Atom(t));
      case KwReg =>
        Advance();
        if Rest() == [] || !toks[pos].RegPath? { return None; }
        var path := toks[pos];
        Advance();
        return Some(Atom(path));
      case KwDeref =>
        Advance();
        if Rest() == [] || !toks[pos].RegPath? {
          hadError := true;
          return None;
        }
        var path := toks[pos];
        Advance();
        return Some(Deref(path.text));
      case Ident(name) =>
        Advance();
        e := ParseAfterName(name);
      case LParen =>
        Advance();
        e := ParseExpr();
        var _ := Expect(RParen);
      case NotTok(_) =>
        Advance();
        var a := ParsePrimary();
        return Some(Not(if a.Some? then a.value else Missing));
      case _ =>
        hadError := true;
        return None;
    }

    // What parse_primary does behind an identifier.
    method ParseAfterName(name: string) returns (e: Option<Expr>)
      requires Valid()
      modifies this
      ensures Valid() && Parse(e, Rest(), hadError) == AfterName(name, old(Rest()), old(hadError))
      decreases |toks| - pos, 4
    {
      hide Climb, Binop, Args;
      if StartsWith(Rest(), LBracket) {
        Advance();
        var i := ParseExpr();
        if i.None? { return None; }
        var ok := Expect(RBracket);
        return if ok then Some(Index(name, i.value)) else None;
      }
      if StartsWith(Rest(), LParen) {
        Advance();
        var args := ParseArgs();
        var ok := Expect(RParen);
        return if ok then Some(Call(name, args)) else None;
      }
      return Some(Atom(Ident(name)));
    }

    // The loop over the arguments of a call.
    method ParseArgs() returns (args: seq<Expr>)
      requires Valid()
      modifies this
      ensures Valid() && ParsedArgs(args, Rest(), hadError) == Args(old(Rest()), old(hadError), [])
      decreases |toks| - pos, 3
    {
      hide Binop;
      args := [];
      while Rest() != [] && Rest()[0] != RParen && !hadError
        invariant Valid() && |Rest()| <= |old(Rest())| && |args| <= MAX_PARAMS
        invariant Args(Rest(), hadError, args) == Args(old(Rest()), old(hadError), [])
        decreases |toks| - pos
      {
        var e := ParseExpr();
        if e.None? { return; }
        if |args| < MAX_PARAMS { args := args + [e.value]; }
        if StartsWith(Rest(), Comma) { Advance(); }
      }
    }

    method ParseBinop(min: nat) returns (e: Option<Expr>)
      requires Valid() && min >= 1
      modifies this
      ensures Valid() && Parse(e, Rest(), hadError) == Binop(old(Rest()), min, old(hadError))
      decreases |toks| - pos, 1
    {
      hide Primary, Climb;
      e := ParsePrimary();
      if e.None? { return; }
      while TokPrec(Rest()) >= min
        invariant Valid() && e.Some? && |Rest()| < |old(Rest())|
        invariant Climb(e.value, Rest(), min, hadError) == Binop(old(Rest()), min, old(hadError))
        decreases |toks| - pos
      {
        ClimbOne(e.value, Rest(), min, hadError);
        var op := OperatorOf(toks[pos]).value;
        var prec := TokPrec(Rest());
        Advance();
        var right := ParseBinop(prec + 1);
        if right.None? { return; }
        e := Some(Bin(op, e.value, right.value));
      }
      ClimbStops(e.value, Rest(), min, hadError);
    }

    method ParseExpr() returns (e: Option<Expr>)
      requires Valid()
      modifies this
      ensures Valid() && Parse(e, Rest(), hadError) == Binop(old(Rest()), 1, old(hadError))
      decreases |toks| - pos, 2
    {
      e := ParseBinop(1);
    }
  }
}
